/** An optional value: a JavaScript `null` slot, or a search that found nothing. */
module Wrappers {

  datatype Option<+T> = None | Some(value: T)
}
