/** The one optional-value type the model needs: JavaScript's `undefined`/`null`
    versus a present value. */
module Wrappers {

  datatype Option<+T> = None | Some(value: T)

}
