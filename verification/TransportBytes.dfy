/** The wire format of src/transport.rs byte by byte: where each field stands,
    in which order its bytes come, and which number stands for which name.
    The decoders are described on every byte string, not only on encoded ones.
 */
module TransportBytes {
  import opened Prelude
  import opened Transport
  import Seqs

  // ------------------------------------------------------------------- numbers

  /** The numbers of two, four and eight bytes at `i`, most significant byte first. */
  function Big2(b: seq<byte>, i: nat): nat
    requires i + 2 <= |b|
  {
    var b0: int, b1: int := b[i], b[i + 1];
    256 * b0 + b1
  }

  function Big4(b: seq<byte>, i: nat): nat
    requires i + 4 <= |b|
  {
    65536 * Big2(b, i) + Big2(b, i + 2)
  }

  function Big8(b: seq<byte>, i: nat): nat
    requires i + 8 <= |b|
  {
    0x1_0000_0000 * Big4(b, i) + Big4(b, i + 4)
  }

  lemma FromTwo(b: seq<byte>, i: nat)
    requires i + 2 <= |b|
    ensures FromBE(b[i..i + 2]) == Big2(b, i)
  {
    var s := b[i..i + 2];
    assert s[..1][..0] == [];
    assert FromBE(s[..1]) == b[i] as int;
  }

  /** A number of more bytes from two halves. */
  lemma {:induction false} FromHalves(s: seq<byte>, t: seq<byte>)
    ensures FromBE(s + t) == FromBE(s) * Limit(|t|) + FromBE(t)
  {
    if t == [] {
      assert s + t == s;
    } else {
      var n := |t| - 1;
      FromHalves(s, t[..n]);
      assert (s + t)[..|s| + n] == s + t[..n];
      calc {
        256 * (FromBE(s) * Limit(n));
        FromBE(s) * (256 * Limit(n));
      }
    }
  }

  lemma FromFour(b: seq<byte>, i: nat)
    requires i + 4 <= |b|
    ensures FromBE(b[i..i + 4]) == Big4(b, i)
  {
    assert b[i..i + 4] == b[i..i + 2] + b[i + 2..i + 4];
    FromTwo(b, i);
    FromTwo(b, i + 2);
    Limits();
    FromHalves(b[i..i + 2], b[i + 2..i + 4]);
  }

  lemma FromEight(b: seq<byte>, i: nat)
    requires i + 8 <= |b|
    ensures FromBE(b[i..i + 8]) == Big8(b, i)
  {
    assert b[i..i + 8] == b[i..i + 4] + b[i + 4..i + 8];
    FromFour(b, i);
    FromFour(b, i + 4);
    Limits();
    FromHalves(b[i..i + 4], b[i + 4..i + 8]);
  }

  // --------------------------------------------------------------------- codes

  const MESSAGE_TYPES :=
    [TaskSubmit, TaskResult, Heartbeat, TaskCancel, Ack, Error, Shutdown, Register, Deregister, Status]
  const STATES := [Pending, Queued, Running, Completed, Failed, Cancelled, TimedOut]
  const BACKENDS := [Cpu, Gpu, Remote, Any]

  /** Each name is written as its place in the list, and no other byte is read. */
  lemma CodesArePlaces(b: byte)
    ensures FromCode(b) == if b < 10 then Some(MESSAGE_TYPES[b]) else None
    ensures FromStateCode(b) == if b < 7 then Some(STATES[b]) else None
    ensures FromBackendCode(b) == if b < 4 then Some(BACKENDS[b]) else None
    ensures b < 10 ==> Code(MESSAGE_TYPES[b]) == b
    ensures b < 7 ==> StateCode(STATES[b]) == b
    ensures b < 4 ==> BackendCode(BACKENDS[b]) == b
  {
  }

  lemma CodesRead(t: MessageType, s: TaskState, k: Backend)
    ensures Code(t) < 10 && MESSAGE_TYPES[Code(t)] == t
    ensures StateCode(s) < 7 && STATES[StateCode(s)] == s
    ensures BackendCode(k) < 4 && BACKENDS[BackendCode(k)] == k
  {
  }

  // -------------------------------------------------------------------- frames

  lemma FrameLengthWraps(n: nat)
    ensures (1 + n % U32) % U32 == (1 + n) % 0x1_0000_0000
  {
  }

  /** A frame: the length of what follows it at 32 bits, the type, the payload. */
  lemma MessageLayout(m: Message)
    ensures
      var b := MessageToBytes(m);
      && |b| == 5 + |m.payload|
      && Big4(b, 0) == (1 + |m.payload|) % 0x1_0000_0000
      && b[4] < 10 && MESSAGE_TYPES[b[4]] == m.msgType
      && b[5..] == m.payload
  {
    var b := MessageToBytes(m);
    FramePieces(m, []);
    assert b + [] == b && m.payload + [] == m.payload;
    ReadU32(FrameLength(m));
    FromFour(b, 0);
    assert b[0..4] == b[..4];
    FrameLengthWraps(|m.payload|);
    CodesRead(m.msgType, Pending, Cpu);
  }

  /** What the frame decoder makes of any bytes. */
  lemma MessageDecodes(b: seq<byte>)
    ensures MessageFromBytes(b) ==
            if |b| < 5 || |b| < 4 + Big4(b, 0) || b[4] >= 10 then Refused
            else if Big4(b, 0) == 0 then Panicked
            else Value(Message(MESSAGE_TYPES[b[4]], b[5..4 + Big4(b, 0)]))
  {
    if |b| >= 5 {
      FromFour(b, 0);
      assert b[0..4] == b[..4];
      CodesArePlaces(b[4]);
    }
  }

  // -------------------------------------------------------------- task results

  lemma ExitLayout(exit: Option<int>)
    requires exit.Some? ==> -0x8000_0000 <= exit.value < 0x8000_0000
    ensures
      var b := ExitToBytes(exit);
      match exit
      case None => b == [0, 0, 0, 0, 0]
      case Some(c) => b[0] == 1 && Big4(b, 1) == if c < 0 then c + 0x1_0000_0000 else c
  {
    if exit.Some? {
      var b := ExitToBytes(exit);
      FromFour(b, 1);
      assert b[1..5] == ToBE(exit.value % U32, 4);
      ReadU32(exit.value % U32);
    }
  }

  lemma ErrorLayout(error: Option<seq<byte>>)
    ensures
      var b := ErrorToBytes(error);
      match error
      case None => |b| == 4 && Big4(b, 0) == 0
      case Some(e) => |b| == 4 + |e| && Big4(b, 0) == |e| % 0x1_0000_0000 && b[4..] == e
  {
    var b := ErrorToBytes(error);
    var n := if error.Some? then |error.value| % U32 else 0;
    FromFour(b, 0);
    assert b[0..4] == ToBE(n, 4);
    ReadU32(n);
  }

  lemma Shifted2(b: seq<byte>, i: nat, n: nat, j: nat)
    requires i + n <= |b| && j + 2 <= n
    ensures Big2(b[i..i + n], j) == Big2(b, i + j)
  {
  }

  lemma Shifted4(b: seq<byte>, i: nat, n: nat, j: nat)
    requires i + n <= |b| && j + 4 <= n
    ensures Big4(b[i..i + n], j) == Big4(b, i + j)
  {
    Shifted2(b, i, n, j);
    Shifted2(b, i, n, j + 2);
  }

  /** Where the fields of a task result begin. */
  lemma ResultSlices(p: TaskResultPayload)
    ensures
      var b := ResultToBytes(p);
      && |b| == 22 + |ErrorToBytes(p.error)| >= 26
      && b[0..8] == ToBE(p.taskId, 8) && b[8] == StateCode(p.state)
      && b[9..9 + 5] == ExitToBytes(p.exitCode) && b[14..22] == ToBE(p.durationMs, 8)
      && b[22..] == ErrorToBytes(p.error)
  {
    var b := ResultToBytes(p);
    ResultPieces(p, []);
    assert b + [] == b && ErrorToBytes(p.error) + [] == ErrorToBytes(p.error);
    assert b[0..8] == b[..8];
  }

  lemma ResultNumbers(p: TaskResultPayload, b: seq<byte>)
    requires p.taskId < U64 && p.durationMs < U64 && |b| >= 22
    requires b[0..8] == ToBE(p.taskId, 8) && b[14..22] == ToBE(p.durationMs, 8)
    ensures Big8(b, 0) == p.taskId && Big8(b, 14) == p.durationMs
  {
    ReadU64(p.taskId);
    FromEight(b, 0);
    ReadU64(p.durationMs);
    FromEight(b, 14);
  }

  lemma ExitAt(exit: Option<int>, b: seq<byte>)
    requires exit.Some? ==> -0x8000_0000 <= exit.value < 0x8000_0000
    requires |b| >= 14 && b[9..9 + 5] == ExitToBytes(exit)
    ensures match exit
            case None => b[9..14] == [0, 0, 0, 0, 0]
            case Some(c) => b[9] == 1 && Big4(b, 10) == if c < 0 then c + 0x1_0000_0000 else c
  {
    ExitLayout(exit);
    Shifted4(b, 9, 5, 1);
    assert b[9] == b[9..9 + 5][0];
  }

  lemma ErrorAt(error: Option<seq<byte>>, b: seq<byte>)
    requires |b| >= 26 && b[22..] == ErrorToBytes(error)
    ensures |b| == 26 + (if error.Some? then |error.value| else 0)
    ensures Big4(b, 22) == (if error.Some? then |error.value| % 0x1_0000_0000 else 0)
    ensures error.Some? ==> b[26..] == error.value
  {
    ErrorLayout(error);
    Shifted4(b, 22, |b| - 22, 0);
    assert b[22..22 + (|b| - 22)] == b[22..];
    Seqs.DropDrop(b, 22, 4);
  }

  /** A task result: id, state, exit flag and value in two's complement, duration, and the error with its length. */
  lemma ResultLayout(p: TaskResultPayload)
    requires ResultInRange(p)
    ensures
      var b := ResultToBytes(p);
      && |b| == 26 + (if p.error.Some? then |p.error.value| else 0)
      && Big8(b, 0) == p.taskId
      && b[8] < 7 && STATES[b[8]] == p.state
      && (match p.exitCode
          case None => b[9..14] == [0, 0, 0, 0, 0]
          case Some(c) => b[9] == 1 && Big4(b, 10) == if c < 0 then c + 0x1_0000_0000 else c)
      && Big8(b, 14) == p.durationMs
      && Big4(b, 22) == (if p.error.Some? then |p.error.value| % 0x1_0000_0000 else 0)
      && (p.error.Some? ==> b[26..] == p.error.value)
  {
    var b := ResultToBytes(p);
    ResultSlices(p);
    ResultNumbers(p, b);
    CodesRead(TaskSubmit, p.state, Cpu);
    ExitAt(p.exitCode, b);
    ErrorAt(p.error, b);
  }

  /** What the decoder of task results makes of any bytes. */
  lemma ResultDecodes(b: seq<byte>, utf8: seq<byte> -> bool)
    ensures |b| < 22 || b[8] >= 7 ==> ResultFromBytes(b, utf8) == Refused
    ensures |b| >= 22 && b[8] < 7 && 22 < |b| < 26 ==> ResultFromBytes(b, utf8) == Panicked
    ensures |b| >= 22 && b[8] < 7 && (|b| == 22 || |b| >= 26) ==>
      var n := if |b| == 22 then 0 else Big4(b, 22);
      var present := n > 0 && |b| >= 26 + n;
      ResultFromBytes(b, utf8) ==
        if present && !utf8(b[26..26 + n]) then Refused
        else Value(TaskResultPayload(
          Big8(b, 0), STATES[b[8]],
          if b[9] != 1 then None
          else if Big4(b, 10) < 0x8000_0000 then Some(Big4(b, 10))
          else Some(Big4(b, 10) - 0x1_0000_0000),
          Big8(b, 14),
          if present then Some(b[26..26 + n]) else None))
  {
    if |b| >= 22 {
      CodesArePlaces(b[8]);
      FromEight(b, 0);
      assert b[0..8] == b[..8];
      FromFour(b, 10);
      assert b[9..14][1..] == b[10..14];
      FromEight(b, 14);
      if |b| >= 26 {
        FromFour(b, 22);
        assert b[22..][..4] == b[22..26];
        var n := Big4(b, 22);
        assert |b| >= 26 + n ==> b[22..][4..4 + n] == b[26..26 + n];
      }
    }
  }

  // ------------------------------------------------------------- registrations

  /** A registration: worker, backend, number of workers, and the name with its length. */
  lemma RegisterLayout(p: RegisterPayload)
    requires p.workerId < U32 && p.numWorkers < 65536
    ensures
      var b := RegisterToBytes(p);
      && |b| == 9 + |p.name|
      && Big4(b, 0) == p.workerId
      && b[4] < 4 && BACKENDS[b[4]] == p.backend
      && Big2(b, 5) == p.numWorkers
      && Big2(b, 7) == |p.name| % 65536
      && b[9..] == p.name
  {
    var b := RegisterToBytes(p);
    RegisterPieces(p, []);
    assert b + [] == b && p.name + [] == p.name;
    ReadU32(p.workerId);
    FromFour(b, 0);
    assert b[0..4] == b[..4];
    CodesRead(TaskSubmit, Pending, p.backend);
    ReadU16(p.numWorkers);
    FromTwo(b, 5);
    ReadU16(|p.name| % 65536);
    FromTwo(b, 7);
  }

  /** What the decoder of registrations makes of any bytes. */
  lemma RegisterDecodes(b: seq<byte>, utf8: seq<byte> -> bool)
    ensures |b| < 9 || b[4] >= 4 ==> RegisterFromBytes(b, utf8) == Refused
    ensures |b| >= 9 && b[4] < 4 ==>
      var n := Big2(b, 7);
      var present := n > 0 && |b| >= 9 + n;
      RegisterFromBytes(b, utf8) ==
        if present && !utf8(b[9..9 + n]) then Refused
        else Value(RegisterPayload(Big4(b, 0), BACKENDS[b[4]], Big2(b, 5), if present then b[9..9 + n] else []))
  {
    if |b| >= 9 {
      CodesArePlaces(b[4]);
      FromFour(b, 0);
      assert b[0..4] == b[..4];
      FromTwo(b, 5);
      FromTwo(b, 7);
    }
  }
}
