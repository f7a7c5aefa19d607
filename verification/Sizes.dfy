/** Constants that several parts of the library share. */
module Sizes {
  import opened Words

  const PROTOCOL_VERSION: byte := 3
  const CURVE25519_KEY_LENGTH: nat := 32
  const CURVE25519_RANDOM_LENGTH: nat := 32
}
