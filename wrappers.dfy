/** An optional value: `None` stands for JavaScript's `undefined` / `NaN`. */
module Wrappers {

  datatype Option<+T> = None | Some(value: T)

}
