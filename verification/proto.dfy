/**
 * The protocol values the store keeps. Their real contents (user handles,
 * challenge bytes, credential ids and public keys) belong to the protocol
 * engine; here they are opaque payloads compared field by field (the
 * model takes `Credential`'s equality to include the counter), and a
 * credential additionally carries its 32-bit usage counter.
 */
module Proto {

  /** Rust's `u8`. */
  newtype U8 = x: int | 0 <= x < 0x100

  /** Rust's `u32`. */
  newtype U32 = x: int | 0 <= x < 0x1_0000_0000

  /** Identity of a principal; used as a map key. */
  datatype UserId = UserId(handle: string)

  /** A single-use token for one in-flight ceremony. */
  datatype Challenge = Challenge(bytes: seq<U8>)

  /**
   * An enrolled authenticator record. `material` stands for everything but
   * the counter (credential id and key), which the store never inspects.
   */
  datatype Credential = Credential(material: seq<U8>, counter: U32)

  /** The copy of `cred` whose counter is replaced by `counter`. */
  function WithCounter(cred: Credential, counter: U32): (r: Credential)
    ensures r.material == cred.material
    ensures r.counter == counter
    ensures r == cred <==> cred.counter == counter
  {
    cred.(counter := counter)
  }
}
