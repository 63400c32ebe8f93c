/**
 * `decrypt_text` and `encrypt_text`: each reads the backing file whole,
 * leaves an empty file alone, and otherwise replaces its contents with the
 * decryption or encryption of what it read. The backing file is its
 * contents; a panic leaves those contents where the panic found them.
 */
module CipherText {
  import opened Bytes
  import opened Wrappers
  import opened Cipher
  import Stream
  import Utf8
  import opened KeyMaterial

  /** Why a session panicked. */
  datatype Cause =
    | PasswordUnreadable
    | CipherFailed(error: CipherError)
    | NotUtf8
    | EditorNotSpawned
    | EditorNotAwaited

  datatype Status = Completed | Panicked(cause: Cause)

  /** The file after an operation, how the operation ended, and whether it called the cipher. */
  datatype Effect = Effect(file: bytes, status: Status, cipherUsed: bool)

  /**
   * `decrypt_text`: an empty file is left alone; otherwise the file is
   * decrypted with the derived key and IV, and the plaintext replaces it.
   * A cipher error panics at the `unwrap` inside `decrypt`, before the
   * file is opened for truncating.
   */
  function DecryptText(c: Cipher, file: bytes): (r: Effect)
    ensures r.cipherUsed <==> |file| > 0
    ensures |file| == 0 ==> r.file == file && r.status == Completed
    ensures |file| > 0 ==>
      match Dec(c, KeyBytes(), IvBytes(), file)
      case Success(plain) => r.file == plain && r.status == Completed
      case Failure(err) => r.file == file && r.status == Panicked(CipherFailed(err))
  {
    if |file| == 0 then Effect(file, Completed, false)
    else
      match Stream.Decrypt(c, KeyBytes(), IvBytes(), file)
      case Failure(err) => Effect(file, Panicked(CipherFailed(err)), true)
      case Success(plain) => Effect(plain, Completed, true)
  }

  /**
   * `encrypt_text`: `read_to_string` panics on contents that are not
   * UTF-8; empty contents are left alone; otherwise the ciphertext of the
   * contents replaces them entirely.
   */
  function EncryptText(c: Cipher, file: bytes): (r: Effect)
    ensures r.status == Panicked(NotUtf8) <==> !Utf8.Valid(file)
    ensures r.cipherUsed <==> Utf8.Valid(file) && |file| > 0
    ensures r.status.Panicked? ==> r.file == file
    ensures |file| == 0 ==> r.file == [] && r.status == Completed
    ensures Utf8.Valid(file) && |file| > 0 ==>
      r.file == Enc(c, KeyBytes(), IvBytes(), file) && r.status == Completed
  {
    if !Utf8.Valid(file) then Effect(file, Panicked(NotUtf8), false)
    else if |file| == 0 then Effect(file, Completed, false)
    else
      match Stream.Encrypt(c, KeyBytes(), IvBytes(), file)
      case Failure(err) => Effect(file, Panicked(CipherFailed(err)), true)
      case Success(cipherText) => Effect(cipherText, Completed, true)
  }

  /** The derived key and IV have the sizes AES-256-CBC takes. */
  lemma DerivedSizes()
    ensures ProperSizes(KeyBytes(), IvBytes())
  {
  }

  /** A file holding the ciphertext of `plain` decrypts to `plain`. */
  lemma DecryptTextOfCiphertext(c: Cipher, plain: bytes)
    requires Lawful(c)
    ensures DecryptText(c, Enc(c, KeyBytes(), IvBytes(), plain)) == Effect(plain, Completed, true)
  {
    DerivedSizes();
    EncFacts(c, KeyBytes(), IvBytes(), plain);
  }

  /** A non-empty file that is not a whole number of blocks fails to decrypt and is kept as it was. */
  lemma DecryptTextMisaligned(c: Cipher, file: bytes)
    requires Lawful(c)
    requires !WholeBlocks(|file|)
    ensures DecryptText(c, file) == Effect(file, Panicked(CipherFailed(InvalidLength)), true)
  {
    assert |file| > 0;
    DerivedSizes();
    MisalignedRefused(c, KeyBytes(), IvBytes(), file);
    assert DecryptText(c, file).status == Panicked(CipherFailed(InvalidLength));
  }

  /**
   * After `encrypt_text` completes, the file is empty or a whole number of
   * blocks that decrypts back to the text that was encrypted.
   */
  lemma EncryptTextAtRest(c: Cipher, file: bytes)
    requires Lawful(c)
    requires EncryptText(c, file).status == Completed
    ensures var r := EncryptText(c, file).file;
      (|r| == 0 && |file| == 0) ||
      (WholeBlocks(|r|) && |r| > |file| && Stream.Decrypt(c, KeyBytes(), IvBytes(), r) == Success(file))
  {
  }
}
