// Types that every part of the model uses.

module Common {

  datatype Option<+T> = None | Some(value: T)

  type byte = n: nat | n < 256
}
