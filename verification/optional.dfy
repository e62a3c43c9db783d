/** The absence-or-value type the engine uses for "no effect" and "game over". */
module Optional {

  datatype Option<+T> = None | Some(value: T)

}
