/** The fixed protocol constants of the file-transfer program. */
module Constants {

  /** Largest number of bytes moved by one socket read or one file read. */
  const BUFFER_SIZE: nat := 4096

  /** The literal token that separates the file name from its size in the header frame. */
  const SEPARATOR: string := "<SEPARATOR>"

  function Min(a: int, b: int): int {
    if a <= b then a else b
  }
}
