/** The optional value used wherever the C code returns a pointer that may be NULL. */
module Options {
  datatype Option<T> = None | Some(value: T)
}

/** Bytes of keys and hashes: the C unsigned char / uint8_t. */
module Bytes {
  type Byte = x: int | 0 <= x < 256
}
