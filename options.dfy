/** The optional value used wherever the map code may find nothing (a missing hit, a missing property). */
module Options {

  datatype Option<+T> = None | Some(value: T)
}
