/**
  The crypto collaborator (`crypto::signMessage`, `crypto::verifySignature`,
  `crypto::sha256`), taken as given functions: nothing is assumed about them.
 */
module Crypto {

  datatype Primitives = Primitives(
    /** `signMessage(private_key, message)` */
    sign: (string, string) -> string,
    /** `verifySignature(public_key, message, signature)` */
    verify: (string, string, string) -> bool,
    /** `sha256(message)`, as a string of characters */
    sha256: string -> string)
}
