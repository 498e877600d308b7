/** Shared vocabulary: bytes, optional pointers and the library's status codes. */
module Status {

  type byte = b: int | 0 <= b < 256

  /** A pointer that may be NULL. */
  datatype Option<+T> = None | Some(value: T)

  const STATUS_PENDING := 1
  const STATUS_OK := 0
  const ERR_BAD_DATA := -4
  const ERR_DUPLICATE := -12
  const ERR_NOT_ALLOWED := -18
  const ERR_NOT_FOUND := -19
  const ERR_NO_DATA := -21
  const ERR_NO_MEM := -23
  const ERR_NO_RESOURCES := -24
  const ERR_NULL_PTR := -25
  const ERR_OUT_OF_BOUNDS := -27
  const ERR_TOO_LARGE := -33
  const ERR_TOO_SMALL := -34
  const ERR_UNSUPPORTED := -35
  const ERR_BUSY := -39
}
