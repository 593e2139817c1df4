/** Bytes as numbers, for the text and message codecs, which calculate with their bytes. */
module Octets {

  type Octet = n: int | 0 <= n < 256

  /** The low eight bits of a number. */
  function Low8(n: nat): Octet {
    n % 256
  }
}
