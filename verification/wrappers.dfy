/** The optional value the quadtree uses where the source returns a city or `None`. */
module Wrappers {

  datatype Option<+T> = None | Some(value: T)
}
