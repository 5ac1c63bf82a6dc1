/** Kerberos encryption types and the cryptographic operations, which enter as
    functions of which only the stated laws are used. */
module Crypto {
  import opened Options
  import opened Bytes

  datatype Enctype =
    | Aes128CtsHmacSha1
    | Aes256CtsHmacSha1
    | Aes128CtsHmacSha256
    | Aes256CtsHmacSha384

  function EtypeNumber(e: Enctype): nat {
    match e
    case Aes128CtsHmacSha1 => 17
    case Aes256CtsHmacSha1 => 18
    case Aes128CtsHmacSha256 => 19
    case Aes256CtsHmacSha384 => 20
  }

  function EnctypeOf(n: int): Option<Enctype> {
    if n == 17 then Some(Aes128CtsHmacSha1)
    else if n == 18 then Some(Aes256CtsHmacSha1)
    else if n == 19 then Some(Aes128CtsHmacSha256)
    else if n == 20 then Some(Aes256CtsHmacSha384)
    else None
  }

  /** The length of a truncated HMAC. */
  function HmacLen(e: Enctype): nat {
    match e
    case Aes128CtsHmacSha1 => 12
    case Aes256CtsHmacSha1 => 12
    case Aes128CtsHmacSha256 => 16
    case Aes256CtsHmacSha384 => 24
  }

  type Key = seq<Byte>

  /** `encrypt` also takes the random confounder it would draw. An operation the
      provider refuses gives `None`. */
  datatype Provider = Provider(
    encrypt: (Enctype, Key, nat, seq<Byte>, seq<Byte>) -> Option<seq<Byte>>,
    decrypt: (Enctype, Key, nat, seq<Byte>) -> Option<seq<Byte>>,
    checksum: (Enctype, Key, nat, seq<Byte>) -> Option<seq<Byte>>)

  /** Decryption undoes encryption, and checksums have the length of the enctype. */
  ghost predicate Lawful(p: Provider) {
    && (forall e, k, u, r, m :: p.encrypt(e, k, u, r, m).Some? ==>
          p.decrypt(e, k, u, p.encrypt(e, k, u, r, m).value) == Some(m))
    && (forall e, k, u, m :: p.checksum(e, k, u, m).Some? ==> |p.checksum(e, k, u, m).value| == HmacLen(e))
  }
}
