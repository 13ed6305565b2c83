/** A small optional-value type shared by the other modules: a pending timer's
    payload, a fired invocation, a caller-supplied placeholder. */
module Optional {

  datatype Option<+T> = None | Some(value: T)
}
