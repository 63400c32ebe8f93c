/**
 * AES-256 in CBC mode with PKCS padding, as rust-crypto provides it, left
 * abstract: a cipher is a pair of functions (so it is deterministic by
 * construction), and the laws the rest of the model relies on are collected
 * in `Lawful`.
 */
module Cipher {
  import opened Bytes
  import opened Wrappers

  /** rust-crypto's `SymmetricCipherError`. */
  datatype CipherError = InvalidLength | InvalidPadding

  const BlockSize: nat := 16
  const KeySize: nat := 32

  datatype Cipher = Cipher(
    encrypt: (bytes, bytes, bytes) -> bytes,
    decrypt: (bytes, bytes, bytes) -> Result<bytes, CipherError>)

  /**
   * The one-shot encryption of `plain` under `key` and `iv`. A named function
   * rather than the field itself, so that the laws below have a term to match on.
   */
  function Enc(c: Cipher, key: bytes, iv: bytes, plain: bytes): bytes {
    c.encrypt(key, iv, plain)
  }

  /** The one-shot decryption of `data` under `key` and `iv`; named for the same reason as `Enc`. */
  function Dec(c: Cipher, key: bytes, iv: bytes, data: bytes): Result<bytes, CipherError> {
    c.decrypt(key, iv, data)
  }

  /** `n` bytes are a whole number of cipher blocks. */
  predicate WholeBlocks(n: nat)
    decreases n
  {
    n == 0 || (n >= BlockSize && WholeBlocks(n - BlockSize))
  }

  lemma {:induction false} WholeBlocksIsMultiple(n: nat)
    ensures WholeBlocks(n) <==> n % BlockSize == 0
    decreases n
  {
    if n >= BlockSize {
      WholeBlocksIsMultiple(n - BlockSize);
    }
  }

  /** A 256-bit key and a one-block IV, as `KeySize256` demands. */
  predicate ProperSizes(key: bytes, iv: bytes) {
    |key| == KeySize && |iv| == BlockSize
  }

  /**
   * The laws of CBC with PKCS padding: decryption undoes encryption; a
   * ciphertext is a whole number of blocks and longer than its plaintext
   * (padding adds 1 to 16 bytes); input that is not a whole number of
   * blocks is refused with `InvalidLength`.
   */
  ghost predicate Lawful(c: Cipher) {
    && (forall key, iv, p :: ProperSizes(key, iv) ==> Dec(c, key, iv, Enc(c, key, iv, p)) == Success(p))
    && (forall key, iv, p :: ProperSizes(key, iv) ==>
          WholeBlocks(|Enc(c, key, iv, p)|) && |Enc(c, key, iv, p)| > |p|)
    && (forall key, iv, d :: ProperSizes(key, iv) && !WholeBlocks(|d|) ==>
          Dec(c, key, iv, d) == Failure(InvalidLength))
  }

  /** The laws, for one plaintext. */
  lemma EncFacts(c: Cipher, key: bytes, iv: bytes, p: bytes)
    requires Lawful(c) && ProperSizes(key, iv)
    ensures Dec(c, key, iv, Enc(c, key, iv, p)) == Success(p)
    ensures WholeBlocks(|Enc(c, key, iv, p)|) && |Enc(c, key, iv, p)| > |p|
  {
  }

  /** Under proper sizes, a ciphertext that is not a whole number of blocks is refused. */
  lemma MisalignedRefused(c: Cipher, key: bytes, iv: bytes, data: bytes)
    requires Lawful(c) && ProperSizes(key, iv)
    requires !WholeBlocks(|data|)
    ensures Dec(c, key, iv, data) == Failure(InvalidLength)
  {
  }

  /*
   * A cipher that only pads (no AES), used solely to show that `Lawful` can
   * be met, so that no property proved under it holds vacuously.
   */

  function PadOnly(p: bytes): bytes {
    var n := BlockSize - |p| % BlockSize;
    p + seq(n, _ => n as byte)
  }

  function UnpadOnly(d: bytes): Result<bytes, CipherError> {
    if |d| % BlockSize != 0 then Failure(InvalidLength)
    else if |d| == 0 then Failure(InvalidPadding)
    else
      var n := d[|d| - 1] as int;
      if 1 <= n <= BlockSize && forall i :: |d| - n <= i < |d| ==> d[i] as int == n
      then Success(d[..|d| - n])
      else Failure(InvalidPadding)
  }

  function PaddingWitness(): Cipher {
    Cipher((key, iv, p) => PadOnly(p), (key, iv, d) => UnpadOnly(d))
  }

  lemma PadOnlyRoundTrip(p: bytes)
    ensures WholeBlocks(|PadOnly(p)|) && |PadOnly(p)| > |p|
    ensures UnpadOnly(PadOnly(p)) == Success(p)
  {
    var d := PadOnly(p);
    var n := BlockSize - |p| % BlockSize;
    assert |d| == |p| + n;
    assert d[|d| - 1] as int == n;
    assert forall i :: |d| - n <= i < |d| ==> d[i] as int == n;
    assert d[..|d| - n] == p;
    WholeBlocksIsMultiple(|d|);
  }

  lemma WitnessIsLawful()
    ensures Lawful(PaddingWitness())
  {
    var c := PaddingWitness();
    forall key, iv, p | ProperSizes(key, iv)
      ensures Dec(c, key, iv, Enc(c, key, iv, p)) == Success(p)
      ensures WholeBlocks(|Enc(c, key, iv, p)|) && |Enc(c, key, iv, p)| > |p|
    {
      PadOnlyRoundTrip(p);
    }
    forall key, iv, d | ProperSizes(key, iv) && !WholeBlocks(|d|)
      ensures Dec(c, key, iv, d) == Failure(InvalidLength)
    {
      WholeBlocksIsMultiple(|d|);
    }
  }
}
