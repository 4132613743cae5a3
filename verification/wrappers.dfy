/** The optional value used wherever a JavaScript value may be missing
    (a cancelled prompt, a failed request, no file chosen). */
module Wrappers {

  datatype Option<+T> = None | Some(value: T)
}
