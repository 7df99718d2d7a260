/** Optional values: `None` stands for the missing value (NaN) that pandas
    produces when a dictionary lookup finds no key. */
module Wrappers {
  datatype Option<+T> = None | Some(value: T)
}
