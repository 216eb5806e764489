/** Optional values, used where the source works with a value that may be absent
    (`null`, `NaN`, an unset array entry). */
module Wrappers {

  datatype Option<+T> = None | Some(value: T)
}
