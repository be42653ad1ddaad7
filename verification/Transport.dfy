/** The wire format of src/transport.rs: length-prefixed frames and the two
    payloads of variable length.  Strings are the byte sequences that satisfy a
    validity predicate `utf8`, about which nothing is assumed. */
module Transport {
  import opened Prelude
  import Seqs

  // --------------------------------------------------------- big-endian numbers

  function Limit(width: nat): (r: nat)
    ensures r >= 1
  {
    if width == 0 then 1 else 256 * Limit(width - 1)
  }

  /** to_be_bytes of the low `width` bytes of `n`. */
  function ToBE(n: nat, width: nat): (r: seq<byte>)
    ensures |r| == width
  {
    if width == 0 then [] else ToBE(n / 256, width - 1) + [n % 256]
  }

  function FromBE(s: seq<byte>): nat {
    if s == [] then 0 else 256 * FromBE(s[..|s| - 1]) + (s[|s| - 1] as int)
  }

  /** Decoding a number gives what its width can hold of it. */
  lemma {:induction false} NumberRoundTrip(n: nat, width: nat)
    requires n < Limit(width)
    ensures FromBE(ToBE(n, width)) == n
  {
    if width == 0 {
    } else {
      NumberRoundTrip(n / 256, width - 1);
      assert ToBE(n, width)[..width - 1] == ToBE(n / 256, width - 1);
    }
  }

  lemma Limits()
    ensures Limit(1) == 256 && Limit(2) == 65536 && Limit(4) == U32 && Limit(8) == U64
  {
    assert Limit(3) == 256 * Limit(2);
    assert Limit(5) == 256 * Limit(4);
    assert Limit(6) == 256 * Limit(5);
    assert Limit(7) == 256 * Limit(6);
  }

  lemma ReadU16(n: nat)
    requires n < 65536
    ensures FromBE(ToBE(n, 2)) == n
  {
    Limits();
    NumberRoundTrip(n, 2);
  }

  lemma ReadU32(n: nat)
    requires n < U32
    ensures FromBE(ToBE(n, 4)) == n
  {
    Limits();
    NumberRoundTrip(n, 4);
  }

  lemma ReadU64(n: nat)
    requires n < U64
    ensures FromBE(ToBE(n, 8)) == n
  {
    Limits();
    NumberRoundTrip(n, 8);
  }

  // ------------------------------------------------------------------ results

  /** What a decoder does: it gives a value, returns InvalidRequest, or indexes out of bounds and panics. */
  datatype Decoded<+T> = Value(value: T) | Refused | Panicked

  // ------------------------------------------------------------------- frames

  datatype MessageType =
    TaskSubmit | TaskResult | Heartbeat | TaskCancel | Ack | Error | Shutdown | Register | Deregister | Status

  function Code(t: MessageType): byte {
    match t
    case TaskSubmit => 0
    case TaskResult => 1
    case Heartbeat => 2
    case TaskCancel => 3
    case Ack => 4
    case Error => 5
    case Shutdown => 6
    case Register => 7
    case Deregister => 8
    case Status => 9
  }

  function FromCode(b: byte): Option<MessageType> {
    match b as int
    case 0 => Some(TaskSubmit)
    case 1 => Some(TaskResult)
    case 2 => Some(Heartbeat)
    case 3 => Some(TaskCancel)
    case 4 => Some(Ack)
    case 5 => Some(Error)
    case 6 => Some(Shutdown)
    case 7 => Some(Register)
    case 8 => Some(Deregister)
    case 9 => Some(Status)
    case _ => None
  }

  datatype Message = Message(msgType: MessageType, payload: seq<byte>)

  function Size(m: Message): nat {
    5 + |m.payload|
  }

  /** The frame length: type byte and payload, in 32-bit arithmetic. */
  function FrameLength(m: Message): nat {
    (1 + |m.payload| % U32) % U32
  }

  function MessageToBytes(m: Message): seq<byte> {
    ToBE(FrameLength(m), 4) + [Code(m.msgType)] + m.payload
  }

  function MessageFromBytes(b: seq<byte>): Decoded<Message> {
    if |b| < 5 then Refused else
    var total := FromBE(b[..4]);
    if |b| < 4 + total then Refused
    else if FromCode(b[4]).None? then Refused
    else if total == 0 then Panicked
    else Value(Message(FromCode(b[4]).value, b[5..4 + total]))
  }

  lemma FramePieces(m: Message, rest: seq<byte>)
    ensures
      var b := MessageToBytes(m) + rest;
      && |b| == Size(m) + |rest|
      && b[..4] == ToBE(FrameLength(m), 4) && b[4] == Code(m.msgType) && b[5..] == m.payload + rest
      && b[Size(m)..] == rest
  {
  }

  /** A frame in front of any bytes decodes to its message exactly when the payload is shorter than 2^32 - 1 bytes. */
  lemma MessageRoundTripIff(m: Message, rest: seq<byte>)
    ensures MessageFromBytes(MessageToBytes(m) + rest) == Value(m) <==> |m.payload| < U32 - 1
  {
    var b := MessageToBytes(m) + rest;
    var total := FrameLength(m);
    FramePieces(m, rest);
    ReadU32(FrameLength(m));
    assert FromCode(Code(m.msgType)) == Some(m.msgType);
    if |m.payload| < U32 - 1 {
      assert total == 1 + |m.payload|;
      assert b[5..4 + total] == b[5..][..|m.payload|];
      Seqs.Split(m.payload, rest);
    } else {
      assert total < 1 + |m.payload|;
    }
  }

  function Concat(ms: seq<Message>): seq<byte> {
    if ms == [] then [] else MessageToBytes(ms[0]) + Concat(ms[1..])
  }

  /** Decodes frames one after the other, advancing by the size of each. */
  function DecodeAll(b: seq<byte>): Option<seq<Message>>
    decreases |b|
  {
    if b == [] then Some([]) else
    match MessageFromBytes(b)
    case Value(m) =>
      if Size(m) > |b| then None else
      var rest := DecodeAll(b[Size(m)..]);
      if rest.None? then None else Some([m] + rest.value)
    case _ => None
  }

  ghost predicate AllShort(ms: seq<Message>) {
    forall i :: 0 <= i < |ms| ==> |ms[i].payload| < U32 - 1
  }

  /** A list of messages on the wire is recovered exactly when every payload is shorter than 2^32 - 1 bytes. */
  lemma {:induction false} StreamRoundTripIff(ms: seq<Message>)
    ensures DecodeAll(Concat(ms)) == Some(ms) <==> AllShort(ms)
  {
    if ms == [] {
    } else {
      MessageRoundTripIff(ms[0], Concat(ms[1..]));
      FramePieces(ms[0], Concat(ms[1..]));
      StreamRoundTripIff(ms[1..]);
      assert [ms[0]] + ms[1..] == ms;
      assert AllShort(ms) <==> |ms[0].payload| < U32 - 1 && AllShort(ms[1..]);
      if MessageFromBytes(Concat(ms)) != Value(ms[0]) && DecodeAll(Concat(ms)).Some? {
        assert DecodeAll(Concat(ms)).value[0] == MessageFromBytes(Concat(ms)).value;
      }
    }
  }

  // ------------------------------------------------------------- task results

  datatype TaskState = Pending | Queued | Running | Completed | Failed | Cancelled | TimedOut

  function StateCode(s: TaskState): byte {
    match s
    case Pending => 0
    case Queued => 1
    case Running => 2
    case Completed => 3
    case Failed => 4
    case Cancelled => 5
    case TimedOut => 6
  }

  function FromStateCode(b: byte): Option<TaskState> {
    match b as int
    case 0 => Some(Pending)
    case 1 => Some(Queued)
    case 2 => Some(Running)
    case 3 => Some(Completed)
    case 4 => Some(Failed)
    case 5 => Some(Cancelled)
    case 6 => Some(TimedOut)
    case _ => None
  }

  datatype TaskResultPayload = TaskResultPayload(
    taskId: nat, state: TaskState, exitCode: Option<int>, durationMs: nat, error: Option<seq<byte>>)

  /** The field widths of the source: u64, i32, u64. */
  predicate ResultInRange(p: TaskResultPayload) {
    && p.taskId < U64 && p.durationMs < U64
    && (p.exitCode.Some? ==> -0x8000_0000 <= p.exitCode.value < 0x8000_0000)
  }

  function ErrorToBytes(error: Option<seq<byte>>): seq<byte> {
    match error
    case None => ToBE(0, 4)
    case Some(e) => ToBE(|e| % U32, 4) + e
  }

  /** Present flag and two's complement value. */
  function ExitToBytes(exit: Option<int>): (r: seq<byte>)
    ensures |r| == 5
  {
    match exit
    case None => [0, 0, 0, 0, 0]
    case Some(c) => [1] + ToBE(c % U32, 4)
  }

  function ResultToBytes(p: TaskResultPayload): seq<byte> {
    ToBE(p.taskId, 8)
    + ([StateCode(p.state)] + (ExitToBytes(p.exitCode) + (ToBE(p.durationMs, 8) + ErrorToBytes(p.error))))
  }

  function SignedFrom(v: nat): int {
    if v >= 0x8000_0000 then v - U32 else v
  }

  function ExitFromBytes(b: seq<byte>): Option<int>
    requires |b| == 5
  {
    if b[0] == 1 then Some(SignedFrom(FromBE(b[1..]))) else None
  }

  /** The error field: a length and that many bytes, if they are all there; the length itself must be. */
  function ErrorFromBytes(b: seq<byte>, utf8: seq<byte> -> bool): Decoded<Option<seq<byte>>> {
    if b == [] then Value(None)
    else if |b| < 4 then Panicked else
    var n := FromBE(b[..4]);
    if n > 0 && |b| >= 4 + n then (if utf8(b[4..4 + n]) then Value(Some(b[4..4 + n])) else Refused)
    else Value(None)
  }

  function ResultFromBytes(b: seq<byte>, utf8: seq<byte> -> bool): Decoded<TaskResultPayload> {
    if |b| < 22 then Refused
    else if FromStateCode(b[8]).None? then Refused else
    match ErrorFromBytes(b[22..], utf8)
    case Refused => Refused
    case Panicked => Panicked
    case Value(error) =>
      Value(TaskResultPayload(FromBE(b[..8]), FromStateCode(b[8]).value,
                              ExitFromBytes(b[9..14]), FromBE(b[14..22]), error))
  }

  lemma ErrorRoundTripIff(error: Option<seq<byte>>, rest: seq<byte>, utf8: seq<byte> -> bool)
    requires error.Some? ==> utf8(error.value)
    ensures ErrorFromBytes(ErrorToBytes(error) + rest, utf8) == Value(error) <==>
            error.None? || 0 < |error.value| < U32
  {
    var b := ErrorToBytes(error) + rest;
    if error.None? {
      assert b[..4] == ToBE(0, 4);
      ReadU32(0);
    } else {
      var e := error.value;
      assert b[..4] == ToBE(|e| % U32, 4);
      ReadU32(|e| % U32);
      assert 0 < |e| < U32 ==> b[4..4 + |e|] == e;
    }
  }

  lemma ExitRoundTrip(exit: Option<int>)
    requires exit.Some? ==> -0x8000_0000 <= exit.value < 0x8000_0000
    ensures ExitFromBytes(ExitToBytes(exit)) == exit
  {
    if exit.Some? {
      ReadU32(exit.value % U32);
      assert ExitToBytes(exit)[1..] == ToBE(exit.value % U32, 4);
    }
  }

  lemma ResultPieces(p: TaskResultPayload, rest: seq<byte>)
    ensures
      var b := ResultToBytes(p) + rest;
      && |b| >= 26
      && b[..8] == ToBE(p.taskId, 8) && b[8] == StateCode(p.state)
      && b[9..14] == ExitToBytes(p.exitCode) && b[14..22] == ToBE(p.durationMs, 8)
      && b[22..] == ErrorToBytes(p.error) + rest
  {
  }

  /** A task result in front of any bytes decodes to itself exactly when its error
      is absent, or present and neither empty nor as long as 2^32 bytes. */
  lemma ResultRoundTripIff(p: TaskResultPayload, rest: seq<byte>, utf8: seq<byte> -> bool)
    requires ResultInRange(p) && (p.error.Some? ==> utf8(p.error.value))
    ensures ResultFromBytes(ResultToBytes(p) + rest, utf8) == Value(p) <==>
            p.error.None? || 0 < |p.error.value| < U32
  {
    ResultPieces(p, rest);
    ReadU64(p.taskId);
    ReadU64(p.durationMs);
    ExitRoundTrip(p.exitCode);
    ErrorRoundTripIff(p.error, rest, utf8);
    assert FromStateCode(StateCode(p.state)) == Some(p.state);
  }

  // ------------------------------------------------------------ registrations

  datatype Backend = Cpu | Gpu | Remote | Any

  function BackendCode(b: Backend): byte {
    match b
    case Cpu => 0
    case Gpu => 1
    case Remote => 2
    case Any => 3
  }

  function FromBackendCode(b: byte): Option<Backend> {
    match b as int
    case 0 => Some(Cpu)
    case 1 => Some(Gpu)
    case 2 => Some(Remote)
    case 3 => Some(Any)
    case _ => None
  }

  datatype RegisterPayload = RegisterPayload(workerId: nat, backend: Backend, numWorkers: nat, name: seq<byte>)

  function RegisterToBytes(p: RegisterPayload): seq<byte> {
    ToBE(p.workerId, 4) + ([BackendCode(p.backend)] + (ToBE(p.numWorkers, 2) + (ToBE(|p.name| % 65536, 2) + p.name)))
  }

  function RegisterFromBytes(b: seq<byte>, utf8: seq<byte> -> bool): Decoded<RegisterPayload> {
    if |b| < 9 then Refused
    else if FromBackendCode(b[4]).None? then Refused else
    var n := FromBE(b[7..9]);
    if n > 0 && |b| >= 9 + n && !utf8(b[9..9 + n]) then Refused else
    var name := if n > 0 && |b| >= 9 + n then b[9..9 + n] else [];
    Value(RegisterPayload(FromBE(b[..4]), FromBackendCode(b[4]).value, FromBE(b[5..7]), name))
  }

  lemma RegisterPieces(p: RegisterPayload, rest: seq<byte>)
    ensures
      var b := RegisterToBytes(p) + rest;
      && |b| == 9 + |p.name| + |rest|
      && b[..4] == ToBE(p.workerId, 4) && b[4] == BackendCode(p.backend)
      && b[5..7] == ToBE(p.numWorkers, 2) && b[7..9] == ToBE(|p.name| % 65536, 2)
      && b[9..] == p.name + rest
  {
  }

  /** A registration in front of any bytes decodes to itself exactly when the name is at most 65535 bytes long. */
  lemma RegisterRoundTripIff(p: RegisterPayload, rest: seq<byte>, utf8: seq<byte> -> bool)
    requires p.workerId < U32 && p.numWorkers < 65536 && utf8(p.name)
    ensures RegisterFromBytes(RegisterToBytes(p) + rest, utf8) == Value(p) <==> |p.name| <= 65535
  {
    var b := RegisterToBytes(p) + rest;
    RegisterPieces(p, rest);
    ReadU32(p.workerId);
    ReadU16(p.numWorkers);
    ReadU16(|p.name| % 65536);
    assert FromBackendCode(BackendCode(p.backend)) == Some(p.backend);
    if |p.name| <= 65535 {
      assert b[9..9 + |p.name|] == b[9..][..|p.name|];
      Seqs.Split(p.name, rest);
    }
  }
}
