/** PHP's nullable results (`?Chunk`, `RegionLoader|null`, `strrpos` returning false) as an Option. */
module Wrappers {

  datatype Option<+T> = None | Some(value: T)

}
