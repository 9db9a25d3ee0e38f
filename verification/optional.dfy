/** An optional value. Each field of type `Option` says in its own comment
    whether `None` stands for a missing dictionary key only, or also for a
    stored `None`. */
module Optional {

  datatype Option<+T> = None | Some(value: T) {

    /** The wrapped value, or `default` when there is none
        (the shape of Python's `d.get(key, default)`). */
    function GetOr(default: T): T {
      match this
      case Some(v) => v
      case None => default
    }
  }
}
