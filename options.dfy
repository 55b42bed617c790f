/** The optional value the source spells `Option<T>`: `None` for "no hit",
    "no bound", "no bounding box". */
module Options {

  datatype Option<+T> = None | Some(value: T)
}
