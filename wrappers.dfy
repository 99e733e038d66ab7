/** The optional value the cache hands back from a lookup and stores as a neighbour link. */
module Wrappers {

  datatype Option<+T> = None | Some(value: T)

}
