/** C# nullable values (`T?` references and `Nullable<T>`). */
module Wrappers {

  datatype Option<+T> = None | Some(value: T)
}
