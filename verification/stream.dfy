/**
 * The drain loop of `encrypt` and `decrypt`: the cipher engine is called
 * again and again with the whole input and `eof = true`, each call writing
 * at most one 4096-byte buffer; what it wrote is appended to the result;
 * `BufferOverflow` asks for another call and `BufferUnderflow` ends the loop.
 * A cipher error panics (`.expect("")`, `.unwrap()`), discarding the output.
 */
module Stream {
  import opened Bytes
  import opened Wrappers
  import opened Cipher

  /** The size of the intermediate write buffer, `[0; 4096]`. */
  const BufferSize: nat := 4096

  /** rust-crypto's `BufferResult`. */
  datatype Signal = Underflow | Overflow

  /** One engine call: the bytes it wrote into the buffer, its signal and its next state; or a cipher error. */
  datatype Step<S> = Emit(chunk: bytes, signal: Signal, next: S) | Fail(error: CipherError)

  /**
   * An engine over states `S`. `work` measures how far the engine is from
   * completing the whole operation (input left to consume plus output not
   * yet written).
   */
  datatype Engine<!S> = Engine(step: S -> Step<S>, work: S -> nat)

  /**
   * One call of the engine from state `s`. Named so that quantifiers over
   * states have a function application to match on.
   */
  function StepOf<S>(e: Engine<S>, s: S): Step<S> {
    e.step(s)
  }

  /**
   * The engine's side of the protocol: a call writes no more than the
   * buffer holds, and a call that returns `BufferOverflow` makes progress
   * (the comment at src/ciphertext.rs:35-44).
   */
  ghost predicate WellBehaved<S(!new)>(e: Engine<S>) {
    forall s :: StepOf(e, s).Emit? ==>
      && |StepOf(e, s).chunk| <= BufferSize
      && (StepOf(e, s).signal == Overflow ==> e.work(StepOf(e, s).next) < e.work(s))
  }

  /** A step after which the loop stops: an error or `BufferUnderflow`. */
  predicate Final<S>(st: Step<S>) {
    st.Fail? || st.signal == Underflow
  }

  /**
   * The calls the loop makes from state `s`, in order: each continues
   * from the previous one's state; all but the last returned
   * `BufferOverflow`; the last failed or returned `BufferUnderflow`.
   */
  function Run<S(!new)>(e: Engine<S>, s: S): (t: seq<Step<S>>)
    requires WellBehaved(e)
    ensures 1 <= |t| <= e.work(s) + 1
    ensures t[0] == StepOf(e, s)
    ensures forall i :: 0 <= i < |t| - 1 ==> !Final(t[i])
    ensures Final(t[|t| - 1])
    ensures forall i :: 0 <= i < |t| ==> t[i].Emit? ==> |t[i].chunk| <= BufferSize
    decreases e.work(s)
  {
    var st := StepOf(e, s);
    if Final(st) then [st] else [st] + Run(e, st.next)
  }

  /** The concatenation, in order, of what the steps wrote. */
  function Output<S>(t: seq<Step<S>>): bytes {
    if |t| == 0 then []
    else Output(t[..|t| - 1]) + (if t[|t| - 1].Emit? then t[|t| - 1].chunk else [])
  }

  /** What the loop returns after the calls `t`: their output, or the error of the last. */
  function Collect<S>(t: seq<Step<S>>): Result<bytes, CipherError>
    requires |t| > 0
  {
    if t[|t| - 1].Fail? then Failure(t[|t| - 1].error) else Success(Output(t))
  }

  lemma {:induction false} OutputAppend<S>(a: seq<Step<S>>, b: seq<Step<S>>)
    ensures Output(a + b) == Output(a) + Output(b)
    decreases |b|
  {
    if |b| == 0 {
      assert a + b == a;
    } else {
      var ab := a + b;
      var front := b[..|b| - 1];
      assert ab[..|ab| - 1] == a + front;
      assert ab[|ab| - 1] == b[|b| - 1];
      OutputAppend(a, front);
    }
  }

  /** Each call continues from the state the previous call left. */
  lemma {:induction false} RunChain<S(!new)>(e: Engine<S>, s: S, i: nat)
    requires WellBehaved(e)
    requires i + 1 < |Run(e, s)|
    ensures Run(e, s)[i + 1] == StepOf(e, Run(e, s)[i].next)
    decreases i
  {
    RunUnfold(e, s);
    var st := StepOf(e, s);
    if i > 0 {
      RunChain(e, st.next, i - 1);
    }
  }

  lemma RunUnfold<S(!new)>(e: Engine<S>, s: S)
    requires WellBehaved(e)
    ensures Final(StepOf(e, s)) ==> Run(e, s) == [StepOf(e, s)]
    ensures !Final(StepOf(e, s)) ==> Run(e, s) == [StepOf(e, s)] + Run(e, StepOf(e, s).next)
  {
  }

  /** `chunk` in front of a loop result; an error stays an error. */
  function Prepend(chunk: bytes, r: Result<bytes, CipherError>): Result<bytes, CipherError> {
    match r
    case Success(rest) => Success(chunk + rest)
    case Failure(err) => Failure(err)
  }

  /** The result from state `s` in terms of the first call and the result from the state it leaves. */
  lemma CollectUnfold<S(!new)>(e: Engine<S>, s: S)
    requires WellBehaved(e)
    ensures StepOf(e, s).Fail? ==> Collect(Run(e, s)) == Failure(StepOf(e, s).error)
    ensures StepOf(e, s).Emit? && StepOf(e, s).signal == Underflow ==>
      Collect(Run(e, s)) == Success(StepOf(e, s).chunk)
    ensures !Final(StepOf(e, s)) ==>
      Collect(Run(e, s)) == Prepend(StepOf(e, s).chunk, Collect(Run(e, StepOf(e, s).next)))
  {
    var st := StepOf(e, s);
    RunUnfold(e, s);
    if Final(st) {
      OutputSingle(st);
    } else {
      CollectCons(st, Run(e, st.next));
    }
  }

  lemma CollectCons<S>(st: Step<S>, rest: seq<Step<S>>)
    requires st.Emit? && |rest| > 0
    ensures Collect([st] + rest) == Prepend(st.chunk, Collect(rest))
  {
    var t := [st] + rest;
    assert t[|t| - 1] == rest[|rest| - 1];
    OutputSingle(st);
    OutputAppend([st], rest);
  }

  lemma OutputSingle<S>(st: Step<S>)
    ensures Output([st]) == if st.Emit? then st.chunk else []
  {
    assert [st][..0] == [];
    var c: bytes := if st.Emit? then st.chunk else [];
    assert [] + c == c;
  }

  /**
   * The loop of src/ciphertext.rs:55-76 and 101-117, on an abstract engine:
   * it stops, and returns what the calls wrote in order, or their error.
   */
  method Drain<S(!new)>(e: Engine<S>, s0: S) returns (r: Result<bytes, CipherError>)
    requires WellBehaved(e)
    ensures r == Collect(Run(e, s0))
  {
    var s := s0;
    var out: bytes := [];
    assert Prepend(out, Collect(Run(e, s))) == Collect(Run(e, s)) by {
      if Collect(Run(e, s)).Success? {
        assert out + Collect(Run(e, s)).value == Collect(Run(e, s)).value;
      }
    }
    while true
      invariant Collect(Run(e, s0)) == Prepend(out, Collect(Run(e, s)))
      decreases e.work(s)
    {
      var st := StepOf(e, s);
      CollectUnfold(e, s);
      match st
      case Fail(err) =>
        return Failure(err);
      case Emit(chunk, signal, next) =>
        if signal == Overflow && Collect(Run(e, next)).Success? {
          var rest := Collect(Run(e, next)).value;
          assert out + (chunk + rest) == (out + chunk) + rest;
        }
        out := out + chunk;
        if signal == Underflow {
          return Success(out);
        }
        s := next;
    }
  }

  /**
   * The loop succeeds exactly when no call failed, and then returns at most
   * one buffer's worth of bytes per call; when it fails, every earlier call
   * returned `BufferOverflow`.
   */
  lemma {:induction false} DrainResult<S(!new)>(e: Engine<S>, s: S)
    requires WellBehaved(e)
    ensures Collect(Run(e, s)).Success? <==> forall i :: 0 <= i < |Run(e, s)| ==> Run(e, s)[i].Emit?
    ensures Collect(Run(e, s)).Success? ==> |Collect(Run(e, s)).value| <= |Run(e, s)| * BufferSize
    ensures Collect(Run(e, s)).Failure? ==>
      forall i :: 0 <= i < |Run(e, s)| - 1 ==> Run(e, s)[i].Emit? && Run(e, s)[i].signal == Overflow
  {
    var t := Run(e, s);
    OutputBound(t);
  }

  lemma {:induction false} OutputBound<S>(t: seq<Step<S>>)
    requires forall i :: 0 <= i < |t| ==> t[i].Emit? ==> |t[i].chunk| <= BufferSize
    ensures |Output(t)| <= |t| * BufferSize
    decreases |t|
  {
    if |t| > 0 {
      OutputBound(t[..|t| - 1]);
    }
  }

  /*
   * The engine as rust-crypto's CBC engine behaves when handed all input at
   * once with `eof = true`: the whole transform's output (or its error) is
   * pending, and each call writes as much of it as the buffer holds,
   * returning `BufferOverflow` while more remains.
   */

  type Pending = Result<bytes, CipherError>

  function SliceStep(p: Pending): Step<Pending> {
    match p
    case Failure(err) => Fail(err)
    case Success(rest) =>
      if |rest| <= BufferSize then Emit(rest, Underflow, Success([]))
      else Emit(rest[..BufferSize], Overflow, Success(rest[BufferSize..]))
  }

  function SliceWork(p: Pending): nat {
    if p.Success? then |p.value| else 0
  }

  function Slicer(): Engine<Pending> {
    Engine(SliceStep, SliceWork)
  }

  lemma SlicerWellBehaved()
    ensures WellBehaved(Slicer())
  {
  }

  /** The loop loses and repeats nothing, whatever the size: it returns exactly the pending result. */
  lemma {:induction false} SlicerDeliversAll(p: Pending)
    ensures WellBehaved(Slicer()) && Collect(Run(Slicer(), p)) == p
    decreases SliceWork(p)
  {
    SlicerWellBehaved();
    var t := Run(Slicer(), p);
    if p.Success? && |p.value| > BufferSize {
      var rest := Success(p.value[BufferSize..]);
      SlicerDeliversAll(rest);
      assert t == [t[0]] + Run(Slicer(), rest);
      OutputAppend([t[0]], Run(Slicer(), rest));
      assert Output([t[0]]) == p.value[..BufferSize];
      assert p.value == p.value[..BufferSize] + p.value[BufferSize..];
    } else if p.Success? {
      assert t == [t[0]];
      OutputSingle(t[0]);
    }
  }

  /** The number of engine calls: one per started buffer, and one for empty output. */
  lemma {:induction false} SlicerCalls(x: bytes)
    ensures WellBehaved(Slicer())
    ensures |Run(Slicer(), Success(x))| == if |x| == 0 then 1 else (|x| + BufferSize - 1) / BufferSize
    decreases |x|
  {
    SlicerWellBehaved();
    if |x| > BufferSize {
      SlicerCalls(x[BufferSize..]);
    }
  }

  /** Ten thousand bytes of output take three calls and come back whole. */
  lemma LargeOutputScenario(x: bytes)
    requires |x| == 10000
    ensures WellBehaved(Slicer())
    ensures |Run(Slicer(), Success(x))| == 3
    ensures Collect(Run(Slicer(), Success(x))) == Success(x)
  {
    SlicerCalls(x);
    SlicerDeliversAll(Success(x));
  }

  /** `encrypt(data, key, iv)`: the drain loop over the encryptor. */
  function Encrypt(c: Cipher, key: bytes, iv: bytes, data: bytes): (r: Result<bytes, CipherError>)
    ensures r == Success(Enc(c, key, iv, data))
    ensures Lawful(c) && ProperSizes(key, iv) ==> WholeBlocks(|r.value|) && |r.value| > |data|
  {
    SlicerWellBehaved();
    SlicerDeliversAll(Success(Enc(c, key, iv, data)));
    Collect(Run(Slicer(), Success(Enc(c, key, iv, data))))
  }

  /** `decrypt(data, key, iv)`: the drain loop over the decryptor. */
  function Decrypt(c: Cipher, key: bytes, iv: bytes, data: bytes): (r: Result<bytes, CipherError>)
    ensures r == Dec(c, key, iv, data)
    ensures Lawful(c) && ProperSizes(key, iv) && !WholeBlocks(|data|) ==> r == Failure(InvalidLength)
  {
    SlicerWellBehaved();
    SlicerDeliversAll(Dec(c, key, iv, data));
    Collect(Run(Slicer(), Dec(c, key, iv, data)))
  }

  /** Decrypting what was encrypted gives back the plaintext, for inputs of any size. */
  lemma StreamRoundTrip(c: Cipher, key: bytes, iv: bytes, p: bytes)
    requires Lawful(c) && ProperSizes(key, iv)
    ensures Encrypt(c, key, iv, p).Success?
    ensures Decrypt(c, key, iv, Encrypt(c, key, iv, p).value) == Success(p)
  {
  }
}
