/**
 * `main`: a password gate, then `decrypt_text`, then the editor on the
 * backing file, then `encrypt_text`. Every failure after the gate is a
 * panic that ends the process where it happens.
 */
module Session {
  import opened Bytes
  import opened Wrappers
  import opened Cipher
  import Utf8
  import opened KeyMaterial
  import opened CipherText

  /** What the editor did to the file it was given. */
  datatype Edit = Keep | Overwrite(contents: bytes)

  /** The editor process: spawning failed, waiting failed, or it exited with some status after editing. */
  datatype EditorRun = SpawnFailed | WaitFailed | Exited(status: int, edit: Edit)

  /** The steps of a session that were entered. */
  datatype Stage = DecryptStage | EditorStage | EncryptStage

  datatype End = WrongPassword | Finished | Aborted(cause: Cause)

  /** The file when the process ends, the steps entered in order, how it ended, and whether the cipher ran. */
  datatype Outcome = Outcome(file: bytes, stages: seq<Stage>, end: End, cipherUsed: bool)

  const AllStages: seq<Stage> := [DecryptStage, EditorStage, EncryptStage]

  function Edited(file: bytes, edit: Edit): bytes {
    match edit
    case Keep => file
    case Overwrite(contents) => contents
  }

  /**
   * One run of `main` on a file with contents `file`. `password` is what
   * `read_password` returned (`None` when it failed, which panics at its
   * `unwrap`); `editor` is what the editor process did. The exit status is
   * not looked at.
   */
  function RunSession(c: Cipher, password: Option<string>, editor: EditorRun, file: bytes): (o: Outcome)
    ensures o.stages <= AllStages
    ensures o.end == Finished ==> o.stages == AllStages
    ensures o.end == WrongPassword <==> password.Some? && password.value != ThisKey
    ensures o.stages == [] <==> password != Some(ThisKey)
    ensures o.stages == [] ==> o.file == file && !o.cipherUsed
    ensures EncryptStage in o.stages ==> editor.Exited?
  {
    match password
    case None => Outcome(file, [], Aborted(PasswordUnreadable), false)
    case Some(pw) =>
      if pw != ThisKey then Outcome(file, [], WrongPassword, false)
      else
        var d := DecryptText(c, file);
        if d.status.Panicked? then Outcome(d.file, [DecryptStage], Aborted(d.status.cause), d.cipherUsed)
        else
          match editor
          case SpawnFailed => Outcome(d.file, [DecryptStage, EditorStage], Aborted(EditorNotSpawned), d.cipherUsed)
          case WaitFailed => Outcome(d.file, [DecryptStage, EditorStage], Aborted(EditorNotAwaited), d.cipherUsed)
          case Exited(_, edit) =>
            var e := EncryptText(c, Edited(d.file, edit));
            var end := if e.status.Panicked? then Aborted(e.status.cause) else Finished;
            Outcome(e.file, AllStages, end, d.cipherUsed || e.cipherUsed)
  }

  /** A wrong password ends the session before any file transition, with the file byte-for-byte as it was. */
  lemma WrongPasswordTouchesNothing(c: Cipher, pw: string, editor: EditorRun, file: bytes)
    requires pw != ThisKey
    ensures RunSession(c, Some(pw), editor, file) == Outcome(file, [], WrongPassword, false)
  {
  }

  /** The password is compared with the bare constant "passwd", so the padded key is refused. */
  lemma PaddedKeyIsNotThePassword(c: Cipher, editor: EditorRun, file: bytes)
    ensures RunSession(c, Some(Key()), editor, file).end == WrongPassword
    ensures RunSession(c, Some("passwd"), editor, file).end != WrongPassword
  {
  }

  /** A failed decryption ends the session before the editor, leaving the ciphertext in place. */
  lemma DecryptFailureKeepsCiphertext(c: Cipher, editor: EditorRun, file: bytes)
    requires |file| > 0 && Dec(c, KeyBytes(), IvBytes(), file).Failure?
    ensures var o := RunSession(c, Some(ThisKey), editor, file);
      o.file == file && o.stages == [DecryptStage] && o.end == Aborted(CipherFailed(Dec(c, KeyBytes(), IvBytes(), file).error))
  {
  }

  /**
   * A failed spawn or wait ends the session before `encrypt_text`, leaving
   * the file as `decrypt_text` left it.
   */
  lemma EditorFailureSkipsEncryption(c: Cipher, editor: EditorRun, file: bytes)
    requires editor == SpawnFailed || editor == WaitFailed
    requires DecryptText(c, file).status == Completed
    ensures var o := RunSession(c, Some(ThisKey), editor, file);
      o.file == DecryptText(c, file).file && EncryptStage !in o.stages && o.end.Aborted?
  {
  }

  /** With a lawful cipher that means the plaintext is left on disk. */
  lemma EditorFailureLeavesPlaintext(c: Cipher, editor: EditorRun, plain: bytes)
    requires Lawful(c)
    requires editor == SpawnFailed || editor == WaitFailed
    ensures RunSession(c, Some(ThisKey), editor, Enc(c, KeyBytes(), IvBytes(), plain)).file == plain
  {
    DecryptTextOfCiphertext(c, plain);
  }

  /** The editor's exit status makes no difference. */
  lemma ExitStatusIgnored(c: Cipher, password: Option<string>, s1: int, s2: int, edit: Edit, file: bytes)
    ensures RunSession(c, password, Exited(s1, edit), file) == RunSession(c, password, Exited(s2, edit), file)
  {
  }

  /** An empty file that the editor leaves empty stays empty, and the cipher is never called. */
  lemma EmptyFileNeverCiphered(c: Cipher, status: int)
    ensures RunSession(c, Some(ThisKey), Exited(status, Keep), []) == Outcome([], AllStages, Finished, false)
  {
  }

  /**
   * When decryption succeeds and the editor leaves non-empty UTF-8 text,
   * the session finishes with that text encrypted in the file.
   */
  lemma SavedTextIsEncrypted(c: Cipher, status: int, file: bytes, edit: Edit)
    requires DecryptText(c, file).status == Completed
    requires |Edited(DecryptText(c, file).file, edit)| > 0 && Utf8.Valid(Edited(DecryptText(c, file).file, edit))
    ensures RunSession(c, Some(ThisKey), Exited(status, edit), file)
      == Outcome(Enc(c, KeyBytes(), IvBytes(), Edited(DecryptText(c, file).file, edit)), AllStages, Finished, true)
  {
  }

  /**
   * A session whose editor saves nothing puts back the ciphertext it
   * found, for a non-empty UTF-8 plaintext.
   */
  lemma UntouchedSessionRoundTrip(c: Cipher, status: int, plain: bytes)
    requires Lawful(c)
    requires |plain| > 0 && Utf8.Valid(plain)
    ensures RunSession(c, Some(ThisKey), Exited(status, Keep), Enc(c, KeyBytes(), IvBytes(), plain))
      == Outcome(Enc(c, KeyBytes(), IvBytes(), plain), AllStages, Finished, true)
  {
    DecryptTextOfCiphertext(c, plain);
    SavedTextIsEncrypted(c, status, Enc(c, KeyBytes(), IvBytes(), plain), Keep);
  }

  /** Whatever non-empty UTF-8 text the editor saves is what the file decrypts to afterwards. */
  lemma EditedSessionStoresText(c: Cipher, status: int, file: bytes, text: bytes)
    requires Lawful(c)
    requires DecryptText(c, file).status == Completed
    requires |text| > 0 && Utf8.Valid(text)
    ensures RunSession(c, Some(ThisKey), Exited(status, Overwrite(text)), file).end == Finished
    ensures DecryptText(c, RunSession(c, Some(ThisKey), Exited(status, Overwrite(text)), file).file)
      == Effect(text, Completed, true)
  {
    SavedTextIsEncrypted(c, status, file, Overwrite(text));
    DecryptTextOfCiphertext(c, text);
  }

  /** Text that is not UTF-8 makes `encrypt_text` panic, and it stays on disk unencrypted. */
  lemma NonUtf8EditStaysInPlain(c: Cipher, status: int, file: bytes, text: bytes)
    requires DecryptText(c, file).status == Completed
    requires !Utf8.Valid(text)
    ensures var o := RunSession(c, Some(ThisKey), Exited(status, Overwrite(text)), file);
      o.file == text && o.end == Aborted(NotUtf8) && o.stages == AllStages
  {
  }

  /**
   * A session that finishes leaves the file at rest: empty, or the
   * ciphertext of some non-empty UTF-8 text.
   */
  lemma FinishedSessionAtRest(c: Cipher, password: Option<string>, editor: EditorRun, file: bytes)
    requires RunSession(c, password, editor, file).end == Finished
    ensures var o := RunSession(c, password, editor, file);
      |o.file| == 0 || exists text :: |text| > 0 && Utf8.Valid(text) && o.file == Enc(c, KeyBytes(), IvBytes(), text)
  {
    var d := DecryptText(c, file);
    var text := Edited(d.file, editor.edit);
    assert RunSession(c, password, editor, file).file == EncryptText(c, text).file;
  }
}
