/**
  What the handlers call but this model cannot see: Fernet encryption from
  the `cryptography` package and QR rendering from `qrcode`. They are passed
  in as a record of functions; what Fernet promises is a predicate that the
  round-trip lemma takes as a precondition.
*/
module External {
  import opened Wrappers

  newtype byte = b: int | 0 <= b < 256

  type Bytes = seq<byte>

  datatype Libraries = Libraries(
    // the keys `Fernet.generate_key()` can produce (32 random bytes, url-safe base64)
    validKey: Bytes -> bool,
    // `Fernet(key).encrypt(data)`; its random IV and timestamp are folded into this function
    encrypt: (Bytes, Bytes) -> Bytes,
    // `Fernet(key).decrypt(token)`; `None` for a malformed key (ValueError) or a bad token (InvalidToken)
    decrypt: (Bytes, Bytes) -> Option<Bytes>,
    // the PNG bytes `qrcode.make(url).save(path)` writes
    qrPng: string -> Bytes)

  /**
    Fernet's guarantee: under a well-formed key, a token decrypts to what
    was encrypted. Malformed keys are left free, so decryption may reject them.
  */
  ghost predicate DecryptInvertsEncrypt(lib: Libraries) {
    forall key: Bytes, data: Bytes | lib.validKey(key) :: lib.decrypt(key, lib.encrypt(key, data)) == Some(data)
  }

  /**
    The guarantee is compatible with rejecting malformed keys: a library
    that refuses every key but 32-byte ones still satisfies it.
  */
  lemma GuaranteeAdmitsKeyRejection()
    ensures var lib := Libraries(
              k => |k| == 32,
              (k, d) => d,
              (k, t) => if |k| == 32 then Some(t) else None,
              url => []);
            DecryptInvertsEncrypt(lib) && lib.decrypt([], []) == None
  {
  }
}
