/** Optional values, used for the "absent" cases of the service: a request
    without a JSON body, a lookup that finds nothing. */
module Wrappers {

  datatype Option<+T> = None | Some(value: T)
}
