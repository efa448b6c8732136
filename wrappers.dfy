/** An optional value: what `Array.prototype.find` returns when nothing
    matches, what a component renders when it renders nothing, and what a
    parser returns for input it rejects. */
module Wrappers {

  datatype Option<T> = None | Some(value: T)
}
