/** The optional value used for the JavaScript `null`-or-value results of the
    web configuration script: `None` stands for `null` (or an unset global),
    `Some(v)` for a present value. */
module Wrappers {

  datatype Option<+T> = None | Some(value: T)
}
