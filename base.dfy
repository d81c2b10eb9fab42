// Shared vocabulary: bytes and optional values.
module Base {

  /** One byte as it travels over the SD or SPI bus (C's uint8_t / unsigned char). */
  type byte = bv8

  datatype Option<+T> = None | Some(value: T)

  function Min(a: nat, b: nat): nat
  {
    if a <= b then a else b
  }
}
