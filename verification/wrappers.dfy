/** An optional value. `None` stands for the C# `null` reference wherever the
    executor passes one (a missing discarder, the `IEmpty` placeholder, a
    `default` result, a missing exception). */
module Wrappers {

  datatype Option<+T> = None | Some(value: T)
}
