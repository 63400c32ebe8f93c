# mypasswd, modelled in Dafny

`mypasswd` keeps one file, `~/.mypasswd`, encrypted with AES-256-CBC and
PKCS padding. A run of the program asks for a password, decrypts the file in
place, opens it in `vim`, and encrypts it again when the editor returns.
This project models the logic around the cipher, with the cipher left abstract:

- `Bytes`, `Wrappers`: bytes as `newtype byte = 0..255`, and `Option`/`Result`.
- `Utf8` (utf8.dfy): what `read_to_string` accepts (well-formed UTF-8, Table 3-7 of
  the Unicode Standard) and what `str::as_bytes` yields.
- `KeyMaterial` (keys.dfy): `format!("{:0<N}", ..)` as `PadRight`, the constants
  `THIS_KEY` and `THIS_IV`, and the key and IV bytes.
- `Cipher` (cipher.dfy): AES-256-CBC with PKCS padding as a pair of functions
  `Enc`/`Dec`. The laws the model relies on are gathered in the predicate `Lawful`:
  decryption undoes encryption; ciphertext is whole 16-byte blocks and longer than
  the plaintext; input that is not whole blocks fails with `InvalidLength`.
  Determinism needs no law, since `Enc` and `Dec` are functions. Lemmas that need
  these laws take `Lawful(c)` as a precondition. `WitnessIsLawful` shows the laws
  can all hold together, using a padding-only stand-in cipher, so no lemma holds
  vacuously.
- `Stream` (stream.dfy): the drain loop of `encrypt`/`decrypt` over an abstract
  engine. A step of the engine returns a chunk and `BufferUnderflow`/`BufferOverflow`,
  or a cipher error. `Run` is the sequence of calls the loop makes. `Drain` is the loop
  itself, with a loop invariant. `Slicer` is the engine as it behaves when all input
  is handed over with `eof = true`: it holds the whole result and writes it out in
  4096-byte pieces. `Encrypt`/`Decrypt` are the loop over that engine.
- `CipherText` (ciphertext.dfy): `decrypt_text` and `encrypt_text` as transitions
  of the file contents (`seq<byte>`). Each returns the new contents, whether it
  completed or panicked, and whether it called the cipher.
- `Session` (session.dfy): `main` as a function of the cipher, what
  `read_password` returned, what the editor did, and the file. It returns the
  final file, the steps entered, and how the run ended.

Points where the code behaves in a way its messages or names might not suggest:

- The editor's exit status is never inspected. `wait()` fails only when waiting
  itself fails, so a non-zero exit still goes on to `encrypt_text`, despite the
  panic text "vim returned a non-zero status" at src/main.rs:30.
- The padding never truncates. A constant of `N` or more characters is used
  unpadded and untruncated.
- The padded key is "passwd" followed by 26 '0's.
- Cipher errors do not come back as `Err`. The `.expect("")` and `.unwrap()` inside
  the loops panic, so a failed decryption stops the process before the truncating
  open, and the file keeps its ciphertext.

## Model

| member | source | states |
|---|---|---|
| KeyMaterial.PadRight | src/ciphertext.rs:149-150 | the result has max(len, N) characters, starts with the input, and every added character is the fill; an input of N or more characters comes back unchanged |
| KeyMaterial.PadRightUnique | src/ciphertext.rs:149-150 | any string with those three properties is the padded string, so they fully specify the padding |
| KeyMaterial.PadRightIdempotent | src/ciphertext.rs:149-150 | padding an already padded string to the same width changes nothing |
| KeyMaterial.PadRightCountsChars | src/ciphertext.rs:149-150 | the width counts characters: padding a non-ASCII string gives N characters but more than N bytes |
| KeyMaterial.PaddedBytes | src/ciphertext.rs:149-151 | the bytes of a '0'-padded string are the string's own bytes followed by 0x30 bytes |
| KeyMaterial.Key | src/ciphertext.rs:149 | the key string is 32 characters: THIS_KEY followed by '0's |
| KeyMaterial.Iv | src/ciphertext.rs:150 | the IV string is THIS_IV itself, already 16 characters, so no padding is added |
| KeyMaterial.KeyAndIvConstants | src/ciphertext.rs:136-150 | the key is "passwd" plus 26 '0's, 32 characters and 32 bytes; the IV is "cnzwtzofghrjqkem" unchanged, 16 bytes; the key differs from THIS_KEY |
| KeyMaterial.KeyBytesDerived | src/ciphertext.rs:149-151 | the key bytes passed to the cipher are the UTF-8 encoding of the padded key |
| KeyMaterial.IvBytesDerived | src/ciphertext.rs:150-151 | the IV bytes passed to the cipher are the UTF-8 encoding of the IV string |
| Utf8.EncodeChar | src/ciphertext.rs:151 | each character's encoding is 1 to 4 bytes and one well-formed UTF-8 sequence; exactly ASCII characters take one byte, equal to their code |
| Utf8.AsBytesValid | src/ciphertext.rs:144 | the bytes of any string are accepted by `read_to_string` |
| Utf8.Decode | src/ciphertext.rs:144 | every byte string `read_to_string` accepts decodes to a string whose `as_bytes` are exactly those bytes |
| Utf8.DecodeHead | src/ciphertext.rs:144 | a well-formed head sequence is the UTF-8 encoding of one scalar value |
| Utf8.ValidIsEncoding | src/ciphertext.rs:144 | `read_to_string` accepts a byte string exactly when it is the UTF-8 encoding of some string |
| Utf8.RejectsIllFormed | src/ciphertext.rs:144 | a lone continuation byte, an overlong lead, a surrogate, a value past U+10FFFF and a truncated sequence are refused |
| Utf8.AsBytesLength | src/ciphertext.rs:149-151 | a string has at least as many bytes as characters, with equality exactly when it is ASCII, and then each byte is the character's code |
| Utf8.AsciiBytes | src/ciphertext.rs:151 | for an ASCII string, `as_bytes` is the sequence of character codes |
| Stream.Run | src/ciphertext.rs:55-76 | the loop calls the engine at most work+1 times; every call but the last returned BufferOverflow; the last failed or returned BufferUnderflow; no call wrote more than 4096 bytes |
| Stream.RunChain | src/ciphertext.rs:55-57 | each call continues from the state the previous call left |
| Stream.CollectUnfold | src/ciphertext.rs:64-75 | after a BufferOverflow the loop's result is that call's chunk in front of the result of the rest; an error or BufferUnderflow ends it with that error or chunk |
| Stream.Drain | src/ciphertext.rs:55-78 | the loop terminates on an engine that makes progress on every BufferOverflow, and returns the in-order concatenation of every chunk, or the cipher error |
| Stream.DrainResult | src/ciphertext.rs:101-119 | the loop succeeds exactly when no call failed, and then returns at most 4096 bytes per call; when it fails, every earlier call returned BufferOverflow |
| Stream.SlicerWellBehaved | src/ciphertext.rs:35-54 | the engine that writes out its pending result in buffer-sized pieces keeps the protocol: at most 4096 bytes per call, progress on every BufferOverflow |
| Stream.SlicerDeliversAll | src/ciphertext.rs:30-78 | the loop returns exactly the pending result, whatever its size: nothing beyond 4096 bytes is lost or repeated |
| Stream.SlicerCalls | src/ciphertext.rs:32-76 | the loop makes one engine call per started 4096-byte buffer of output, and one call for empty output |
| Stream.LargeOutputScenario | src/ciphertext.rs:32-76 | ten thousand bytes of output are drained in three engine calls and delivered whole |
| Stream.Encrypt | src/ciphertext.rs:15-79 | `encrypt` returns the one-shot ciphertext; under the cipher laws it is whole blocks and longer than the input |
| Stream.Decrypt | src/ciphertext.rs:88-120 | `decrypt` returns the one-shot decryption or its error; under the cipher laws, input that is not whole blocks fails with InvalidLength |
| Stream.StreamRoundTrip | src/ciphertext.rs:15-120 | decrypting what `encrypt` produced gives back the plaintext, for inputs of any size |
| CipherText.DecryptText | src/ciphertext.rs:163-183 | an empty file is left empty without calling the cipher; otherwise the file becomes Dec(old), or, on a cipher error, panics with the file unchanged |
| CipherText.EncryptText | src/ciphertext.rs:140-160 | non-UTF-8 contents panic with the file unchanged and the cipher not called; empty contents stay empty without the cipher; otherwise the whole file becomes Enc(text) |
| CipherText.DerivedSizes | src/ciphertext.rs:172-173 | the derived key and IV are 32 and 16 bytes, as AES-256-CBC takes |
| CipherText.DecryptTextOfCiphertext | src/ciphertext.rs:174-182 | a file holding Enc(p) becomes p |
| CipherText.DecryptTextMisaligned | src/ciphertext.rs:174-176 | a file that is not whole blocks panics with InvalidLength and is left as it was |
| CipherText.EncryptTextAtRest | src/ciphertext.rs:151-159 | after `encrypt_text` completes, the file is empty or whole blocks that decrypt back to the text |
| Session.RunSession | src/main.rs:10-34 | the steps entered are always a prefix of decrypt, editor, encrypt, and all three on success; the run ends WrongPassword exactly when the password read differs from "passwd"; before the gate nothing is touched; encryption is entered only after the editor exited |
| Session.WrongPasswordTouchesNothing | src/main.rs:17-20 | a wrong password ends the run with the file byte-for-byte unchanged, no step entered, and no cipher call |
| Session.PaddedKeyIsNotThePassword | src/main.rs:17 | the password is compared with the unpadded "passwd": the padded key is refused, "passwd" accepted |
| Session.DecryptFailureKeepsCiphertext | src/main.rs:23 | a failed decryption aborts before the editor with the file unchanged |
| Session.EditorFailureSkipsEncryption | src/main.rs:25-30 | a failed spawn or wait aborts before `encrypt_text`, with the file as `decrypt_text` left it |
| Session.EditorFailureLeavesPlaintext | src/main.rs:23-30 | with a lawful cipher, that leaves the plaintext on disk |
| Session.ExitStatusIgnored | src/main.rs:29-33 | two runs that differ only in the editor's exit status end the same way |
| Session.EmptyFileNeverCiphered | src/main.rs:23-33 | an empty file the editor leaves empty stays empty, the run finishes, and the cipher is never called |
| Session.SavedTextIsEncrypted | src/main.rs:23-33 | when decryption succeeds and the editor leaves non-empty UTF-8 text, the run finishes with that text encrypted |
| Session.UntouchedSessionRoundTrip | src/main.rs:23-33 | a file holding Enc(p), p non-empty UTF-8, with the editor saving nothing, ends holding Enc(p) again |
| Session.EditedSessionStoresText | src/main.rs:25-33 | whatever non-empty UTF-8 text the editor saves, the run finishes and the file then decrypts to that text |
| Session.NonUtf8EditStaysInPlain | src/main.rs:33 | text that is not UTF-8 makes the run abort at `encrypt_text`, leaving that text unencrypted |
| Session.FinishedSessionAtRest | src/main.rs:23-33 | a run that finishes leaves the file empty or the encryption of some non-empty UTF-8 text |

## Left out

- AES-256 (FIPS 197), CBC mode (section 6.2 of NIST SP 800-38A) and PKCS#7 padding (section 6.3 of RFC 5652) live in rust-crypto, which is not part of this model. `Enc`/`Dec` are parameters, and their laws are assumed through `Lawful`.
- Stream.Slicer: the real engine's internal states (partial blocks, the consumed input) are not modelled. The model keeps only its output delivery: the whole result, written out in buffer-sized pieces. A CBC decryptor may write chunks before it detects bad padding. The loop's panic discards those chunks anyway.
- Stream.WellBehaved: rust-crypto's "makes progress" is taken as an abstract `work` measure that every BufferOverflow step decreases. It is an assumption about the engine, not derived from its code.
- `get_mypasswd` (src/ciphertext.rs:122-134) is left out: finding the home directory and creating the file. The backing file is its contents.
- Filesystem errors are left out: the `unwrap`s on opening, reading and writing the file (src/ciphertext.rs:143, 154-159, 166-167, 177-182) and on the editor's path argument (src/main.rs:26). In the model the file always opens and every write completes.
- A crash part-way through a truncating write, and concurrent runs on the same file, are left out.
- The prompt and the "password wrong" message (src/main.rs:14, 18) are output only. A failed stdout flush (src/main.rs:15) panics before the password is read; the model treats it like a failed `read_password` (`None`): file untouched, no step entered.
- `Session.Edited`/`EditorRun`: vim is modelled by `EditorRun` (spawn failed, wait failed, or exited with a status after keeping or overwriting the file) and by `Edited`, the contents it leaves on disk. When the wait fails, later writes by the still-running editor are not modelled.
- The `KeySize256` key-length assertion inside rust-crypto is not modelled. The derived key is proved to be 32 bytes instead (`DerivedSizes`).
- `check_env` (src/main.rs:6-8) is empty, and the `#[test]` functions (src/ciphertext.rs:185-194) use the real home directory.
