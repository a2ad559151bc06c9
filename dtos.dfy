/**
 * The request bodies of the account service and the validation attributes
 * that ASP.NET Core checks before an action runs (the files under API/DTOs). Each
 * attribute becomes a predicate on the field it annotates; a body that fails
 * one never reaches the controller.
 */
module Dtos {
  import opened Models

  // ---------------------------------------------------------------------
  // Attribute semantics
  // ---------------------------------------------------------------------

  /** The characters for which .NET's `char.IsWhiteSpace` holds. */
  predicate IsWhiteSpace(c: char)
  {
    ('\U{0009}' <= c <= '\U{000D}') || c == ' ' || c == '\U{0085}' || c == '\U{00A0}'
    || c == '\U{1680}' || ('\U{2000}' <= c <= '\U{200A}') || c == '\U{2028}' || c == '\U{2029}'
    || c == '\U{202F}' || c == '\U{205F}' || c == '\U{3000}'
  }

  /**
   * `[Required]` on a string: the value must be present and must not be
   * empty or consist of white space only.
   */
  predicate Required(s: string): (r: bool)
    ensures r <==> !(|s| == 0 || AllOf(s, IsWhiteSpace))
  {
    exists i | 0 <= i < |s| :: !IsWhiteSpace(s[i])
  }

  /**
   * `[RegularExpression("^[C]*$")]` for a character class `C`: the empty
   * string passes, otherwise the match must cover the whole value.
   */
  predicate AllOf(s: string, inClass: char -> bool)
  {
    forall i | 0 <= i < |s| :: inClass(s[i])
  }

  /** The class `[a-zA-Z0-9]`. */
  predicate IsLatinLetterOrDigit(c: char)
  {
    ('a' <= c <= 'z') || ('A' <= c <= 'Z') || ('0' <= c <= '9')
  }

  /** The class `[a-zA-Zа-яА-Я ]`: `а-я` is U+0430..U+044F and `А-Я` is U+0410..U+042F. */
  predicate IsNameChar(c: char)
  {
    ('a' <= c <= 'z') || ('A' <= c <= 'Z')
    || ('\U{0430}' <= c <= '\U{044F}') || ('\U{0410}' <= c <= '\U{042F}') || c == ' '
  }

  /** A field with `[Required]` and `[RegularExpression("^[a-zA-Z0-9]*$")]`. */
  predicate RequiredLatinAlnum(s: string)
  {
    Required(s) && AllOf(s, IsLatinLetterOrDigit)
  }

  /** A field with `[Required]` and `[RegularExpression("^[a-zA-Zа-яА-Я ]*$")]`. */
  predicate RequiredName(s: string)
  {
    Required(s) && AllOf(s, IsNameChar)
  }

  /** `[Range(lo, hi)]` on an int: both bounds inclusive. */
  predicate InRange(x: int, lo: int, hi: int)
  {
    lo <= x <= hi
  }

  // ---------------------------------------------------------------------
  // Request bodies
  // ---------------------------------------------------------------------

  /** POST users/register. `Birthday` is a non-nullable DateTime, `Admin` a non-nullable bool. */
  datatype RegisterDto = RegisterDto(
    login: string, password: string, name: string, gender: int, birthday: DateTime, admin: bool)

  predicate ValidRegisterDto(d: RegisterDto): (r: bool)
    ensures r <==>
      && |d.login| > 0 && (forall i | 0 <= i < |d.login| :: IsLatinLetterOrDigit(d.login[i]))
      && |d.password| > 0 && (forall i | 0 <= i < |d.password| :: IsLatinLetterOrDigit(d.password[i]))
      && AllOf(d.name, IsNameChar) && (exists i | 0 <= i < |d.name| :: d.name[i] != ' ')
      && 0 <= d.gender <= 2
  {
    LatinAlnumFieldRule(d.login);
    LatinAlnumFieldRule(d.password);
    NameFieldRule(d.name);
    RequiredLatinAlnum(d.login)
    && RequiredLatinAlnum(d.password)
    && RequiredName(d.name)
    && InRange(d.gender, 0, 2)
  }

  /** PUT users/update. */
  datatype UpdateUserDto = UpdateUserDto(login: string, name: string, gender: int, birthday: DateTime)

  predicate ValidUpdateUserDto(d: UpdateUserDto): (r: bool)
    ensures r <==>
      && Required(d.login)
      && AllOf(d.name, IsNameChar) && (exists i | 0 <= i < |d.name| :: d.name[i] != ' ')
      && 0 <= d.gender <= 3
  {
    NameFieldRule(d.name);
    Required(d.login)
    && RequiredName(d.name)
    && InRange(d.gender, 0, 3)
  }

  /** PUT users/updatePassword. */
  datatype UpdatePasswordDto = UpdatePasswordDto(login: string, password: string)

  predicate ValidUpdatePasswordDto(d: UpdatePasswordDto)
  {
    Required(d.login) && RequiredLatinAlnum(d.password)
  }

  /** PUT users/updateLogin. */
  datatype UpdateLoginDto = UpdateLoginDto(login: string, newLogin: string)

  predicate ValidUpdateLoginDto(d: UpdateLoginDto)
  {
    Required(d.login) && RequiredLatinAlnum(d.newLogin)
  }

  /** POST users/login. Its declaration is not part of this model; it carries no validation here. */
  datatype LoginDto = LoginDto(login: string, password: string)

  // ---------------------------------------------------------------------
  // What the attributes accept
  // ---------------------------------------------------------------------

  /** For a Latin-letters-and-digits field, `[Required]` means exactly "non-empty". */
  lemma {:induction false} LatinAlnumFieldRule(s: string)
    ensures RequiredLatinAlnum(s) <==> |s| > 0 && forall i | 0 <= i < |s| :: IsLatinLetterOrDigit(s[i])
  {
    if |s| > 0 && AllOf(s, IsLatinLetterOrDigit) {
      assert !IsWhiteSpace(s[0]);
    }
  }

  /**
   * A name field accepts exactly the strings over `[a-zA-Zа-яА-Я ]` that
   * contain at least one character other than a space.
   */
  lemma NameFieldRule(s: string)
    ensures RequiredName(s) <==> AllOf(s, IsNameChar) && exists i | 0 <= i < |s| :: s[i] != ' '
  {
  }

  /** The Cyrillic letters `ё` (U+0451) and `Ё` (U+0401) lie outside both ranges. */
  lemma NameRejectsYo(s: string)
    requires exists i | 0 <= i < |s| :: s[i] == '\U{0451}' || s[i] == '\U{0401}'
    ensures !RequiredName(s)
  {
  }

  /** `Register` takes the gender codes 0..2 only; the profile update also takes 3. */
  lemma GenderRanges(g: int)
    ensures InRange(g, 0, 2) ==> InRange(g, 0, 3)
    ensures InRange(g, 0, 3) && !InRange(g, 0, 2) <==> g == 3
  {
  }

  /**
   * The login named in a password update is not restricted to Latin
   * letters and digits, unlike the login of a registration: any non-blank
   * text passes. The new password must be non-empty Latin letters and digits.
   */
  lemma PasswordUpdateLoginUnrestricted(d: UpdatePasswordDto)
    ensures ValidUpdatePasswordDto(d) <==>
      Required(d.login) && |d.password| > 0 && forall i | 0 <= i < |d.password| :: IsLatinLetterOrDigit(d.password[i])
    ensures ValidUpdatePasswordDto(UpdatePasswordDto("Иван Петров", "secret1"))
    ensures !RequiredLatinAlnum("Иван Петров")
  {
    LatinAlnumFieldRule(d.password);
    LatinAlnumFieldRule("secret1");
    assert !IsWhiteSpace("Иван Петров"[0]);
    assert !IsLatinLetterOrDigit("Иван Петров"[0]);
  }

  /**
   * A rename names its target by any non-blank login, and the new login must
   * be non-empty Latin letters and digits; upper-case letters are allowed,
   * since nothing lowercases it.
   */
  lemma NewLoginKeepsCase(d: UpdateLoginDto)
    ensures ValidUpdateLoginDto(d) <==>
      Required(d.login) && |d.newLogin| > 0 && forall i | 0 <= i < |d.newLogin| :: IsLatinLetterOrDigit(d.newLogin[i])
    ensures ValidUpdateLoginDto(UpdateLoginDto("a.b@c", "NewName"))
  {
    LatinAlnumFieldRule(d.newLogin);
    LatinAlnumFieldRule("NewName");
    assert !IsWhiteSpace("a.b@c"[0]);
  }

  /** White space alone is not a name, although the space is in the name class. */
  lemma BlankNameRejected(s: string)
    requires |s| > 0 && forall i | 0 <= i < |s| :: s[i] == ' '
    ensures AllOf(s, IsNameChar) && !RequiredName(s)
  {
  }
}
