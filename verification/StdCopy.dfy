/**
 The buffered demultiplexer. It refines the reference decoder of
 `StreamFormat` for every way the reader splits the stream into chunks and
 for every failure of the reader or the writers.
 */
module StdCopy {
  import opened Wrappers
  import opened StreamFormat

  const STARTING_BUF_LEN: nat := 32 * 1024 + PREFIX_LEN + 1

  datatype ReadStatus = ReadOk | ReadEof | ReadFailed(readCode: int)

  function Flatten(chunks: seq<seq<byte>>): seq<byte> {
    if chunks == [] then [] else chunks[0] + Flatten(chunks[1..])
  }

  /**
   A source with an arbitrary chunking. Each Read hands out the next chunk, or
   as much of it as fits; chunks may be empty. After the last chunk the reader
   reports `ending`; with `endsWithData` it reports it together with that chunk.
   */
  class Reader {
    var chunks: seq<seq<byte>>
    const ending: ReadStatus
    const endsWithData: bool
    /** How many bytes the Reads that did not fail have handed out. */
    ghost var accepted: nat

    constructor (chunks: seq<seq<byte>>, ending: ReadStatus, endsWithData: bool)
      requires !ending.ReadOk?
      ensures this.chunks == chunks && this.ending == ending && this.endsWithData == endsWithData
      ensures Valid() && Remaining() == Flatten(chunks) && accepted == 0
    {
      this.chunks := chunks;
      this.ending := ending;
      this.endsWithData := endsWithData;
      accepted := 0;
    }

    ghost predicate Valid() {
      !ending.ReadOk?
    }

    /** The bytes not handed out yet. */
    ghost function Remaining(): seq<byte>
      reads this
    {
      Flatten(chunks)
    }

    /** The most that a failing Read can hand out. */
    ghost function LastChunk(): nat
      reads this
    {
      if chunks == [] then 0 else |chunks[|chunks| - 1]|
    }

    /** This reader in the course of a copy that began with s. */
    ghost predicate Follows(s: Start)
      reads this
    {
      && Valid() && ending == s.ending && endsWithData == s.endsWithData
      && s.accepted <= accepted && LastChunk() <= s.lastChunk
    }

    /** No Read has failed since. */
    ghost predicate Counts(s: Start)
      reads this
    {
      s.accepted <= accepted && accepted + |Remaining()| == s.accepted + |s.stream|
    }

    ghost function Todo(): nat
      reads this
    {
      |Remaining()| + |chunks|
    }

    /** Reads into the non-empty slice buf[from..]; what lies beyond the bytes read is unspecified. */
    method Read(buf: array<byte>, from: nat) returns (n: nat, status: ReadStatus)
      requires Valid() && from < buf.Length
      modifies this, buf
      ensures from + n <= buf.Length && buf[..from] == old(buf[..from])
      ensures old(Remaining()) == buf[from..from + n] + Remaining()
      ensures status == ReadOk || status == ending
      ensures status == ReadOk ==> Todo() < old(Todo())
      ensures status == ending ==> Remaining() == []
      ensures status == ending && !endsWithData ==> n == 0
      ensures accepted == old(accepted) + if status.ReadFailed? then 0 else n
      ensures LastChunk() <= old(LastChunk()) && (status.ReadFailed? ==> n <= old(LastChunk()))
    {
      if |chunks| == 0 {
        return 0, ending;
      }
      var c := chunks[0];
      n := if |c| <= buf.Length - from then |c| else buf.Length - from;
      ChunkTaken(chunks, n);
      Put(buf, from, c[..n]);
      if n < |c| {
        chunks := [c[n..]] + chunks[1..];
        status := ReadOk;
      } else {
        chunks := chunks[1..];
        status := if |chunks| == 0 && endsWithData then ending else ReadOk;
      }
      accepted := if status.ReadFailed? then accepted else accepted + n;
    }
  }

  method Put(buf: array<byte>, from: nat, data: seq<byte>)
    requires from + |data| <= buf.Length
    modifies buf
    ensures buf[..from] == old(buf[..from]) && buf[from..from + |data|] == data
  {
    forall i | 0 <= i < |data| {
      buf[from + i] := data[i];
    }
  }

  /** Taking n bytes of the first chunk takes them from the front of the stream. */
  lemma ChunkTaken(chunks: seq<seq<byte>>, n: nat)
    requires chunks != [] && n <= |chunks[0]|
    ensures Flatten(chunks) == chunks[0][..n] + Flatten([chunks[0][n..]] + chunks[1..])
    ensures n == |chunks[0]| ==> Flatten(chunks) == chunks[0][..n] + Flatten(chunks[1..])
    ensures |Flatten(chunks)| == n + |Flatten([chunks[0][n..]] + chunks[1..])|
  {
    var c := chunks[0];
    var after := [c[n..]] + chunks[1..];
    assert after[1..] == chunks[1..];
    assert c == c[..n] + c[n..];
  }

  datatype WriteStatus = WriteOk | WriteFailed(writeCode: int)

  /** How much each write takes, and what it reports; writes beyond the plan take everything. */
  type Plan = seq<(nat, WriteStatus)>

  function Taken(plan: Plan, turn: nat, len: nat): (n: nat)
    ensures n <= len
  {
    if turn < |plan| && plan[turn].0 < len then plan[turn].0 else len
  }

  function Said(plan: Plan, turn: nat): WriteStatus {
    if turn < |plan| then plan[turn].1 else WriteOk
  }

  /** A writer that follows a plan of partial and failed writes. */
  class Writer {
    const plan: Plan
    var turn: nat
    var data: seq<byte>

    constructor (plan: Plan)
      ensures this.plan == plan && turn == 0 && data == []
    {
      this.plan := plan;
      turn, data := 0, [];
    }

    method Write(p: seq<byte>) returns (n: nat, status: WriteStatus)
      modifies this
      ensures n == Taken(plan, old(turn), |p|) && status == Said(plan, old(turn))
      ensures data == old(data) + p[..n] && turn == old(turn) + 1
    {
      n, status := |p|, WriteOk;
      if turn < |plan| {
        n := if plan[turn].0 <= |p| then plan[turn].0 else |p|;
        status := plan[turn].1;
      }
      data := data + p[..n];
      turn := turn + 1;
    }
  }

  // -------------------------------------------------------------- the outcome

  datatype Outcome =
    | Copied
    | SourceFailed(code: int)
    | DaemonError(text: seq<byte>)
    | UnrecognizedHeader(header: byte)
    | SinkFailed(sinkCode: int)
    | ShortWrite

  /** The frame goes to a writer which is the stdout (o) or the stderr (e) destination, or both. */
  predicate Goes(f: Frame, o: bool, e: bool) {
    if f.stream == STDERR then e else o
  }

  /** The payloads that reach such a writer. */
  ghost function Routed(fs: seq<Frame>, o: bool, e: bool): seq<byte> {
    if fs == [] then []
    else
      var f := fs[|fs| - 1];
      Routed(fs[..|fs| - 1], o, e) + (if Goes(f, o, e) then f.payload else [])
  }

  /** How many frames reach it. */
  ghost function Arrivals(fs: seq<Frame>, o: bool, e: bool): nat {
    if fs == [] then 0 else Arrivals(fs[..|fs| - 1], o, e) + (if Goes(fs[|fs| - 1], o, e) then 1 else 0)
  }

  ghost function Volume(fs: seq<Frame>): nat {
    if fs == [] then 0 else Volume(fs[..|fs| - 1]) + |fs[|fs| - 1].payload|
  }

  lemma RoutedAppend(fs: seq<Frame>, f: Frame, o: bool, e: bool)
    ensures Routed(fs + [f], o, e) == Routed(fs, o, e) + (if Goes(f, o, e) then f.payload else [])
    ensures Arrivals(fs + [f], o, e) == Arrivals(fs, o, e) + (if Goes(f, o, e) then 1 else 0)
  {
    assert (fs + [f])[..|fs|] == fs;
  }

  lemma VolumeAppend(fs: seq<Frame>, f: Frame)
    ensures Volume(fs + [f]) == Volume(fs) + |f.payload|
  {
    assert (fs + [f])[..|fs|] == fs;
  }

  // ---------------------------------------------------------------- filling

  /** The fill loop used for the header and for the payload: read until `need` bytes are buffered. */
  method Fill(src: Reader, buf: array<byte>, nr0: nat, need: nat)
      returns (nr: nat, status: ReadStatus, ghost good: nat)
    requires src.Valid() && nr0 <= buf.Length && need <= buf.Length
    modifies src, buf
    ensures nr0 <= good <= nr <= buf.Length
    ensures buf[..nr] + src.Remaining() == old(buf[..nr0] + src.Remaining())
    ensures status == ReadOk ==> nr >= need
    ensures status != ReadOk ==> status == src.ending && src.Remaining() == []
    ensures status == ReadEof ==> nr < need
    ensures status.ReadFailed? ==> good < need && (!src.endsWithData ==> good == nr)
    ensures !status.ReadFailed? ==> good == nr
    ensures src.accepted == old(src.accepted) + good - nr0
    ensures src.LastChunk() <= old(src.LastChunk()) && nr - good <= old(src.LastChunk())
  {
    nr, status, good := nr0, ReadOk, nr0;
    while nr < need
      invariant nr0 <= good == nr <= buf.Length && status == ReadOk
      invariant buf[..nr] + src.Remaining() == old(buf[..nr0] + src.Remaining())
      invariant src.accepted == old(src.accepted) + good - nr0 && src.LastChunk() <= old(src.LastChunk())
      decreases src.Todo()
    {
      ghost var kept, todo := buf[..nr], src.Remaining();
      var n, er := src.Read(buf, nr);
      assert buf[..nr + n] == kept + buf[nr..nr + n];
      Associative(kept, buf[nr..nr + n], src.Remaining());
      nr := nr + n;
      if er == ReadEof {
        if nr < need {
          status := ReadEof;
        }
        good := nr;
        return;
      }
      if er != ReadOk {
        status := er;
        return;
      }
      good := nr;
    }
  }

  /** append(buf, make(...)): a longer array with the same beginning. */
  method Grow(buf: array<byte>, len: nat) returns (bigger: array<byte>)
    requires buf.Length <= len
    ensures fresh(bigger) && bigger.Length == len && bigger[..buf.Length] == buf[..]
  {
    bigger := new byte[len](i => 0);
    forall i | 0 <= i < buf.Length {
      bigger[i] := buf[i];
    }
  }

  /** copy(buf, buf[k:]): moves the rest of the buffer to its beginning. */
  method Shift(buf: array<byte>, k: nat, ghost nr: nat)
    requires k <= nr <= buf.Length
    modifies buf
    ensures buf[..nr - k] == old(buf[k..nr])
  {
    forall i | 0 <= i < buf.Length - k {
      buf[i] := buf[i + k];
    }
  }

  // ----------------------------------------------------------- the next frame

  datatype Step =
    | Ready(stream: byte, size: nat)
    | AtEof
    | AtFailure(code: int)
    | AtBadHeader(header: byte)

  /** What a step says about the buffered bytes and the bytes still in the source. */
  ghost predicate StepHolds(step: Step, have: seq<byte>, more: seq<byte>, good: nat,
                            ending: ReadStatus, endsWithData: bool)
  {
    var rest := have + more;
    match step
    case Ready(stream, size) =>
      && Complete(have) && have[0] == stream <= SYSTEM_ERR && size == FrameSize(have)
    case AtEof => ending == ReadEof && Tail(rest, Exhausted)
    case AtFailure(code) =>
      && ending == ReadFailed(code) && more == []
      && good <= |have| && Tail(have[..good], Exhausted) && (!endsWithData ==> good == |have|)
    case AtBadHeader(header) => Tail(rest, BadHeader(header))
  }

  /** Up to the complete frame: header, stream check, then the payload. */
  method NextFrame(src: Reader, buf0: array<byte>, nr0: nat)
      returns (buf: array<byte>, nr: nat, step: Step, ghost good: nat)
    requires src.Valid() && nr0 <= buf0.Length && PREFIX_LEN < buf0.Length
    modifies src, buf0
    ensures (buf == buf0 || fresh(buf)) && PREFIX_LEN < buf.Length && nr <= buf.Length
    ensures buf[..nr] + src.Remaining() == old(buf0[..nr0] + src.Remaining())
    ensures StepHolds(step, buf[..nr], src.Remaining(), good, src.ending, src.endsWithData)
    ensures good <= nr && src.accepted == old(src.accepted) + good - nr0 && (!step.AtFailure? ==> good == nr)
    ensures src.LastChunk() <= old(src.LastChunk()) && nr - good <= old(src.LastChunk())
  {
    var status;
    buf := buf0;
    nr, status, good := Fill(src, buf, nr0, PREFIX_LEN);
    if status == ReadEof {
      step := AtEof;
    } else if status != ReadOk {
      step := AtFailure(status.readCode);
    } else if buf[0] > SYSTEM_ERR {
      step := AtBadHeader(buf[0]);
    } else {
      buf, nr, step, good := ReadPayload(src, buf, nr);
    }
  }

  /** Grows the buffer if the frame does not fit and reads the rest of the frame. */
  method ReadPayload(src: Reader, buf0: array<byte>, nr0: nat)
      returns (buf: array<byte>, nr: nat, step: Step, ghost good: nat)
    requires src.Valid() && PREFIX_LEN <= nr0 <= buf0.Length && PREFIX_LEN < buf0.Length && buf0[0] <= SYSTEM_ERR
    modifies src, buf0
    ensures (buf == buf0 || fresh(buf)) && PREFIX_LEN < buf.Length && nr <= buf.Length
    ensures buf[..nr] + src.Remaining() == old(buf0[..nr0] + src.Remaining())
    ensures StepHolds(step, buf[..nr], src.Remaining(), good, src.ending, src.endsWithData)
    ensures good <= nr && src.accepted == old(src.accepted) + good - nr0 && (!step.AtFailure? ==> good == nr)
    ensures src.LastChunk() <= old(src.LastChunk()) && nr - good <= old(src.LastChunk())
  {
    buf := buf0;
    ghost var have := buf[..nr0];
    var frameSize: nat :=
      buf[4] as nat * 0x1000000 + buf[5] as nat * 0x10000 + buf[6] as nat * 0x100 + buf[7] as nat;
    if frameSize + PREFIX_LEN > buf.Length {
      buf := Grow(buf, frameSize + PREFIX_LEN + 1);
      assert buf[..nr0] == buf[..buf0.Length][..nr0] == have;
    }
    var status;
    nr, status, good := Fill(src, buf, nr0, frameSize + PREFIX_LEN);
    HeaderKept(have, buf[..nr], src.Remaining());
    if status == ReadEof {
      assert buf[..nr] + [] == buf[..nr];
      step := AtEof;
    } else if status != ReadOk {
      StillIncomplete(buf[..nr], good);
      step := AtFailure(status.readCode);
    } else {
      step := Ready(buf[0], frameSize);
    }
  }

  /** Reading more does not change the header. */
  lemma HeaderKept(have: seq<byte>, now: seq<byte>, more: seq<byte>)
    requires PREFIX_LEN <= |have| <= |now| && have <= now + more
    ensures now[0] == have[0] && FrameSize(now) == FrameSize(have)
  {
    assert forall i :: 0 <= i < PREFIX_LEN ==> now[i] == (now + more)[i] == have[i];
  }

  lemma StillIncomplete(s: seq<byte>, n: nat)
    requires PREFIX_LEN <= |s| && n <= |s| && n < PREFIX_LEN + FrameSize(s) && s[0] <= SYSTEM_ERR
    ensures Tail(s[..n], Exhausted)
  {
  }

  // ----------------------------------------------------------------- the copy

  /** What holds when a copy begins: the source, and what the writers hold and plan. */
  datatype Start = Start(
    stream: seq<byte>, ending: ReadStatus, endsWithData: bool, accepted: nat, lastChunk: nat,
    out: seq<byte>, err: seq<byte>, outPlan: Plan, errPlan: Plan, outTurn: nat, errTurn: nat, shared: bool)

  ghost function StartOf(dstout: Writer, dsterr: Writer, src: Reader): Start
    reads dstout, dsterr, src
  {
    Start(src.Remaining(), src.ending, src.endsWithData, src.accepted, src.LastChunk(),
          dstout.data, dsterr.data, dstout.plan, dsterr.plan, dstout.turn, dsterr.turn, dstout == dsterr)
  }

  /** The plan of the writer of a stream id, and its turn after the frames fs. */
  ghost function PlanFor(s: Start, stream: byte): Plan {
    if stream == STDERR then s.errPlan else s.outPlan
  }

  ghost function TurnAt(s: Start, fs: seq<Frame>, stream: byte): nat {
    if stream == STDERR then s.errTurn + Arrivals(fs, s.shared, true) else s.outTurn + Arrivals(fs, true, s.shared)
  }

  /** These are the writers, and they hold these frames on top of what they held before. */
  ghost predicate Holds(dstout: Writer, dsterr: Writer, s: Start, fs: seq<Frame>)
    reads dstout, dsterr
  {
    && s.shared == (dstout == dsterr) && s.outPlan == dstout.plan && s.errPlan == dsterr.plan
    && dstout.data == s.out + Routed(fs, true, s.shared) && dstout.turn == s.outTurn + Arrivals(fs, true, s.shared)
    && dsterr.data == s.err + Routed(fs, s.shared, true) && dsterr.turn == s.errTurn + Arrivals(fs, s.shared, true)
  }

  /** What becomes of a frame of len bytes that a writer takes at this turn of its plan. */
  function Verdict(plan: Plan, turn: nat, len: nat): Outcome {
    if Said(plan, turn).WriteFailed? then SinkFailed(Said(plan, turn).writeCode)
    else if Taken(plan, turn, len) < len then ShortWrite
    else Copied
  }

  /** What becomes of f after the frames fs, and the part of it that is taken. */
  ghost function VerdictOn(s: Start, fs: seq<Frame>, f: Frame): Outcome {
    Verdict(PlanFor(s, f.stream), TurnAt(s, fs, f.stream), |f.payload|)
  }

  ghost function PartOf(s: Start, fs: seq<Frame>, f: Frame): (part: Frame)
    ensures VerdictOn(s, fs, f) == Copied ==> part == f
  {
    Frame(f.stream, f.payload[..Taken(PlanFor(s, f.stream), TurnAt(s, fs, f.stream), |f.payload|)])
  }

  /** Every one of these frames is taken in full. */
  ghost predicate Accepted(s: Start, fs: seq<Frame>) {
    fs == [] || (Accepted(s, fs[..|fs| - 1]) && VerdictOn(s, fs[..|fs| - 1], fs[|fs| - 1]) == Copied)
  }

  lemma AcceptedGrows(s: Start, fs: seq<Frame>, f: Frame)
    ensures Accepted(s, fs + [f]) <==> Accepted(s, fs) && VerdictOn(s, fs, f) == Copied
  {
    assert (fs + [f])[..|fs|] == fs;
  }

  /**
   What a copy may report about its source and its writers, and the frames it
   delivered. `got` is how many bytes the Reads that did not fail handed out.
   */
  ghost predicate Explains(s: Start, got: nat, written: nat, outcome: Outcome, done: seq<Frame>, partial: seq<Frame>) {
    && written == (if outcome.Copied? || outcome.DaemonError? then Volume(done) else 0)
    && EndedBy(s, got, outcome)
    && if Refused(outcome) then TakenInPart(s, outcome, done, partial)
       else partial == [] && Decode(Considered(s, got, outcome)) == Decoded(done, EndOf(outcome))
  }

  ghost predicate Refused(o: Outcome) {
    o.SinkFailed? || o.ShortWrite?
  }

  /** A failing Read returns bytes only if endsWithData, and never more than the last chunk. */
  ghost predicate EndedBy(s: Start, got: nat, outcome: Outcome) {
    && (outcome.Copied? ==> s.ending == ReadEof)
    && (outcome.SourceFailed? ==>
          && s.ending == ReadFailed(outcome.code)
          && |s.stream| - (if s.endsWithData then s.lastChunk else 0) <= got <= |s.stream|)
  }

  /** The bytes whose frames are delivered: all, or those before the failing Read. */
  ghost function Considered(s: Start, got: nat, outcome: Outcome): seq<byte> {
    if outcome.SourceFailed? && got < |s.stream| then s.stream[..got] else s.stream
  }

  /** Where decoding stops for an outcome that no writer caused. */
  ghost function EndOf(outcome: Outcome): End {
    match outcome
    case DaemonError(text) => DaemonMessage(text)
    case UnrecognizedHeader(header) => BadHeader(header)
    case _ => Exhausted
  }

  /** The writer of the next frame answered with this fault, and took this part. */
  ghost predicate TakenInPart(s: Start, outcome: Outcome, done: seq<Frame>, partial: seq<Frame>) {
    var frames := Decode(s.stream).frames;
    && done < frames
    && outcome == VerdictOn(s, done, frames[|done|])
    && partial == [PartOf(s, done, frames[|done|])]
  }

  method Deliver(dstout: Writer, dsterr: Writer, stream: byte, payload: seq<byte>, ghost s: Start, ghost done: seq<Frame>)
      returns (nw: nat, ew: WriteStatus)
    requires stream <= STDERR && Holds(dstout, dsterr, s, done)
    modifies dstout, dsterr
    ensures nw == Taken(PlanFor(s, stream), TurnAt(s, done, stream), |payload|)
    ensures ew == Said(PlanFor(s, stream), TurnAt(s, done, stream))
    ensures Holds(dstout, dsterr, s, done + [PartOf(s, done, Frame(stream, payload))])
  {
    var out := if stream == STDERR then dsterr else dstout;
    nw, ew := out.Write(payload);
    ghost var part := Frame(stream, payload[..nw]);
    RoutedAppend(done, part, true, s.shared);
    RoutedAppend(done, part, s.shared, true);
    Associative(s.out, Routed(done, true, s.shared), part.payload);
    Associative(s.err, Routed(done, s.shared, true), part.payload);
  }

  lemma Associative(a: seq<byte>, b: seq<byte>, c: seq<byte>)
    ensures a + b + c == a + (b + c) && b + [] == b
  {
  }

  /** Writes one frame; anything but a full write is a fault. */
  method WriteFrame(dstout: Writer, dsterr: Writer, stream: byte, payload: seq<byte>,
                    ghost s: Start, ghost done: seq<Frame>)
      returns (fault: Outcome)
    requires stream <= STDERR && Holds(dstout, dsterr, s, done)
    modifies dstout, dsterr
    ensures fault == VerdictOn(s, done, Frame(stream, payload))
    ensures Holds(dstout, dsterr, s, done + [PartOf(s, done, Frame(stream, payload))])
  {
    var nw, ew := Deliver(dstout, dsterr, stream, payload, s, done);
    if ew != WriteOk {
      fault := SinkFailed(ew.writeCode);
    } else if nw != |payload| {
      fault := ShortWrite;
    } else {
      fault := Copied;
    }
  }

  /** The frame at the front of the buffer: an error message, or a payload to write. */
  method HandleFrame(dstout: Writer, dsterr: Writer, buf: array<byte>, nr0: nat, stream: byte, size: nat,
                     ghost have: seq<byte>, ghost s: Start, ghost done: seq<Frame>)
      returns (nr: nat, fault: Outcome)
    requires nr0 <= buf.Length && have == buf[..nr0]
    requires Complete(have) && stream == have[0] <= SYSTEM_ERR && size == FrameSize(have)
    requires Holds(dstout, dsterr, s, done)
    modifies dstout, dsterr, buf
    ensures nr <= buf.Length && fault == FrameVerdict(s, done, Front(have))
    ensures buf[..nr] == if fault.Copied? then Rest(have) else have
    ensures Holds(dstout, dsterr, s, done + FramePart(s, done, Front(have)))
  {
    nr := nr0;
    var payload := buf[PREFIX_LEN..PREFIX_LEN + size];
    assert payload == have[PREFIX_LEN..PREFIX_LEN + size];
    if stream == SYSTEM_ERR {
      assert done + [] == done;
      return nr, DaemonError(payload);
    }
    fault := WriteFrame(dstout, dsterr, stream, payload, s, done);
    if fault == Copied {
      nr := DropFrame(buf, nr0, size, have);
    }
  }

  /** The frame at the front. */
  ghost function Front(rest: seq<byte>): Frame
    requires Complete(rest)
  {
    Frame(rest[0], Payload(rest))
  }

  lemma SameFront(have: seq<byte>, more: seq<byte>)
    requires Complete(have)
    ensures var rest := have + more;
      Complete(rest) && rest[0] == have[0] && Front(rest) == Front(have) && Rest(rest) == Rest(have) + more
  {
    CompleteExtends(have, more);
  }

  /** What becomes of the frame at the front, and what of it reaches a writer. */
  ghost function FrameVerdict(s: Start, done: seq<Frame>, f: Frame): Outcome {
    if f.stream == SYSTEM_ERR then DaemonError(f.payload) else VerdictOn(s, done, f)
  }

  ghost function FramePart(s: Start, done: seq<Frame>, f: Frame): seq<Frame> {
    if f.stream == SYSTEM_ERR then [] else [PartOf(s, done, f)]
  }

  /** Moves what follows the frame at the front to the beginning of the buffer. */
  method DropFrame(buf: array<byte>, nr0: nat, size: nat, ghost have: seq<byte>) returns (nr: nat)
    requires nr0 <= buf.Length && have == buf[..nr0] && Complete(have) && size == FrameSize(have)
    modifies buf
    ensures nr < nr0 && buf[..nr] == Rest(have)
  {
    assert Rest(have) == buf[PREFIX_LEN + size..nr0];
    Shift(buf, PREFIX_LEN + size, nr0);
    nr := nr0 - (size + PREFIX_LEN);
  }

  /** The bytes not yet consumed: those in the buffer and those still in the source. */
  ghost function Pending(buf: array<byte>, nr: nat, src: Reader): seq<byte>
    requires nr <= buf.Length
    reads buf, src
  {
    buf[..nr] + src.Remaining()
  }

  /** What one round of the loop does with the pending bytes `rest`, having delivered `done`. */
  ghost predicate Does(s: Start, done: seq<Frame>, rest: seq<byte>, got: nat, end: Option<Outcome>, partial: seq<Frame>) {
    if end.None? || Refused(end.value) then
      && Complete(rest) && rest[0] <= STDERR
      && VerdictOn(s, done, Front(rest)) == (if end.None? then Copied else end.value)
      && partial == [PartOf(s, done, Front(rest))]
    else if end.value.SourceFailed? then
      && s.ending == ReadFailed(end.value.code) && partial == []
      && exists good: nat :: FailsAt(s, rest, got, good)
    else
      && (end.value.Copied? ==> s.ending == ReadEof) && partial == []
      && Tail(rest, EndOf(end.value))
  }

  /** A Read failed after `good` of the pending bytes; the others came with the failure. */
  ghost predicate FailsAt(s: Start, rest: seq<byte>, got: nat, good: nat) {
    && good <= |rest| <= |s.stream| && got == |s.stream| - |rest| + good
    && |rest| - (if s.endsWithData then s.lastChunk else 0) <= good
    && Tail(rest[..good], Exhausted)
  }

  /** What one round returns: the bytes written so far, or the result of the call. */
  ghost function Tally(written: nat, rest: seq<byte>, end: Option<Outcome>): nat {
    if end.None? then if Complete(rest) then written + |Payload(rest)| else written
    else if end.value.Copied? || end.value.DaemonError? then written
    else 0
  }

  /** The second half of the loop body, once a frame is complete. None means that the copy goes on. */
  method FrontFrame(dstout: Writer, dsterr: Writer, buf: array<byte>, nr0: nat, written0: nat, id: byte, size: nat,
                    ghost more: seq<byte>, ghost got: nat, ghost s: Start, ghost done: seq<Frame>)
      returns (nr: nat, written: nat, end: Option<Outcome>, ghost partial: seq<Frame>)
    requires nr0 <= buf.Length && Complete(buf[..nr0]) && id == buf[0] <= SYSTEM_ERR && size == FrameSize(buf[..nr0])
    requires Holds(dstout, dsterr, s, done)
    modifies dstout, dsterr, buf
    ensures nr <= buf.Length && Holds(dstout, dsterr, s, done + partial)
    ensures Does(s, done, old(buf[..nr0]) + more, got, end, partial)
    ensures written == Tally(written0, old(buf[..nr0]) + more, end)
    ensures end.None? ==> nr < nr0 && buf[..nr] + more == Rest(old(buf[..nr0]) + more)
  {
    ghost var have := buf[..nr0];
    var fault;
    SameFront(have, more);
    nr, fault := HandleFrame(dstout, dsterr, buf, nr0, id, size, have, s, done);
    partial := FramePart(s, done, Front(have));
    if fault == Copied {
      written, end := written0 + size, None;
    } else {
      written, end := if fault.DaemonError? then written0 else 0, Some(fault);
    }
  }

  /** One round of the loop: a frame, or the end of the copy. */
  method Round(dstout: Writer, dsterr: Writer, src: Reader, buf0: array<byte>, nr0: nat, written0: nat,
               ghost s: Start, ghost done: seq<Frame>)
      returns (buf: array<byte>, nr: nat, written: nat, end: Option<Outcome>, ghost partial: seq<Frame>)
    requires PREFIX_LEN < buf0.Length && nr0 <= buf0.Length && src.Follows(s) && src.Counts(s)
    requires Holds(dstout, dsterr, s, done) && |Pending(buf0, nr0, src)| <= |s.stream|
    modifies dstout, dsterr, src, buf0
    ensures (buf == buf0 || fresh(buf)) && PREFIX_LEN < buf.Length && nr <= buf.Length && src.Follows(s)
    ensures Holds(dstout, dsterr, s, done + partial)
    ensures Does(s, done, old(Pending(buf0, nr0, src)), src.accepted - s.accepted, end, partial)
    ensures written == Tally(written0, old(Pending(buf0, nr0, src)), end)
    ensures end.None? ==> src.Counts(s) && Pending(buf, nr, src) == Rest(old(Pending(buf0, nr0, src)))
  {
    var step;
    ghost var good;
    ghost var rest := Pending(buf0, nr0, src);
    buf, nr, step, good := NextFrame(src, buf0, nr0);
    assert Pending(buf, nr, src) == rest;
    if step.Ready? {
      nr, written, end, partial :=
        FrontFrame(dstout, dsterr, buf, nr, written0, step.stream, step.size, src.Remaining(),
                   src.accepted - s.accepted, s, done);
    } else {
      assert done + [] == done;
      partial := [];
      written, end := Stopped(step, written0, s, done, buf[..nr], src.Remaining(), good, src.accepted - s.accepted);
    }
  }

  /** The returns for an exhausted or failed source and for an unknown stream id. */
  method Stopped(step: Step, written0: nat, ghost s: Start, ghost done: seq<Frame>,
                 ghost have: seq<byte>, ghost more: seq<byte>, ghost good: nat, ghost got: nat)
      returns (written: nat, end: Option<Outcome>)
    requires !step.Ready? && StepHolds(step, have, more, good, s.ending, s.endsWithData)
    requires step.AtFailure? ==>
      |have| <= |s.stream| && |have| - good <= s.lastChunk && got == |s.stream| - |have| + good
    ensures end.Some? && Does(s, done, have + more, got, end, []) && written == Tally(written0, have + more, end)
  {
    match step {
      case AtEof =>
        return written0, Some(Copied);
      case AtBadHeader(header) =>
        return 0, Some(UnrecognizedHeader(header));
      case AtFailure(code) =>
        assert have + more == have;
        assert FailsAt(s, have, got, good);
        return 0, Some(SourceFailed(code));
    }
  }

  /** Having delivered `done`, the copy delivers f from the front of `rest`, and `next` remains. */
  ghost predicate Delivers(s: Start, done: seq<Frame>, rest: seq<byte>, f: Frame, next: seq<byte>) {
    Complete(rest) && rest[0] <= STDERR && f == Front(rest) && next == Rest(rest) && VerdictOn(s, done, f) == Copied
  }

  /** Where the loop can be: `done` are delivered one by one from the stream, and `rest` remains. */
  ghost predicate Reached(s: Start, done: seq<Frame>, rest: seq<byte>, written: nat)
    decreases |done|
  {
    if done == [] then rest == s.stream && written == 0
    else
      var n := |done| - 1;
      exists prev, w: nat ::
        Reached(s, done[..n], prev, w) && Delivers(s, done[..n], prev, done[n], rest) && written == w + |done[n].payload|
  }

  /** What a returning copy reports. */
  ghost predicate Reports(s: Start, got: nat, written: nat, outcome: Outcome, done: seq<Frame>, partial: seq<Frame>) {
    Accepted(s, done) && Explains(s, got, written, outcome, done, partial)
  }

  /**
   StdCopy. The result is a function of the stream, of how it ends, and of what
   the writers answer; it does not depend on how the reader splits the stream.
   `done` are the frames delivered in full, `partial` is what a failing writer
   took of the next one. If a Read fails, every frame that was complete before
   it is delivered: nothing is lost but bytes of the last chunk.
   */
  method Copy(dstout: Writer, dsterr: Writer, src: Reader)
      returns (written: nat, outcome: Outcome, ghost s: Start, ghost done: seq<Frame>, ghost partial: seq<Frame>)
    requires src.Valid()
    modifies dstout, dsterr, src
    ensures s == old(StartOf(dstout, dsterr, src)) && src.accepted >= s.accepted
    ensures Holds(dstout, dsterr, s, done + partial)
    ensures Reports(s, src.accepted - s.accepted, written, outcome, done, partial)
  {
    s := StartOf(dstout, dsterr, src);
    NothingCopied(dstout, dsterr, src);
    var buf := new byte[STARTING_BUF_LEN];
    assert Pending(buf, 0, src) == s.stream;
    written, outcome, done, partial := CopyFrames(dstout, dsterr, src, buf, s);
  }

  /** The loop, with its first buffer. */
  method CopyFrames(dstout: Writer, dsterr: Writer, src: Reader, buf0: array<byte>, ghost s: Start)
      returns (written: nat, outcome: Outcome, ghost done: seq<Frame>, ghost partial: seq<Frame>)
    requires PREFIX_LEN < buf0.Length && src.Follows(s) && src.Counts(s)
    requires Holds(dstout, dsterr, s, []) && Pending(buf0, 0, src) == s.stream
    modifies dstout, dsterr, src, buf0
    ensures src.accepted >= s.accepted && Holds(dstout, dsterr, s, done + partial)
    ensures Reports(s, src.accepted - s.accepted, written, outcome, done, partial)
  {
    var buf, nr: nat, end := buf0, 0, None;
    written, done, partial := 0, [], [];
    while end.None?
      invariant (buf == buf0 || fresh(buf)) && PREFIX_LEN < buf.Length && nr <= buf.Length && src.Follows(s)
      invariant end.Some? || |Pending(buf, nr, src)| <= |s.stream|
      invariant end.Some? || (src.Counts(s) && Holds(dstout, dsterr, s, done))
      invariant end.Some? || Reached(s, done, Pending(buf, nr, src), written)
      invariant end.None? || Holds(dstout, dsterr, s, done + partial)
      invariant end.None? || Reports(s, src.accepted - s.accepted, written, end.value, done, partial)
      decreases end.None?, |Pending(buf, nr, src)|
    {
      buf, nr, written, end, done, partial := Progress(dstout, dsterr, src, buf, nr, written, s, done);
    }
    outcome := end.value;
  }

  lemma NothingCopied(dstout: Writer, dsterr: Writer, src: Reader)
    requires src.Valid()
    ensures var s := StartOf(dstout, dsterr, src);
      Holds(dstout, dsterr, s, []) && src.Follows(s) && src.Counts(s)
  {
  }

  /** A round, with the frames delivered after it. */
  method Progress(dstout: Writer, dsterr: Writer, src: Reader, buf0: array<byte>, nr0: nat, written0: nat,
                  ghost s: Start, ghost done0: seq<Frame>)
      returns (buf: array<byte>, nr: nat, written: nat, end: Option<Outcome>,
               ghost done: seq<Frame>, ghost partial: seq<Frame>)
    requires PREFIX_LEN < buf0.Length && nr0 <= buf0.Length && src.Follows(s) && src.Counts(s)
    requires Holds(dstout, dsterr, s, done0) && |Pending(buf0, nr0, src)| <= |s.stream|
    requires Reached(s, done0, Pending(buf0, nr0, src), written0)
    modifies dstout, dsterr, src, buf0
    ensures (buf == buf0 || fresh(buf)) && PREFIX_LEN < buf.Length && nr <= buf.Length && src.Follows(s)
    ensures end.Some? || |Pending(buf, nr, src)| < |old(Pending(buf0, nr0, src))|
    ensures end.Some? || (src.Counts(s) && Holds(dstout, dsterr, s, done))
    ensures end.Some? || Reached(s, done, Pending(buf, nr, src), written)
    ensures end.None? || Holds(dstout, dsterr, s, done + partial)
    ensures end.None? || Reports(s, src.accepted - s.accepted, written, end.value, done, partial)
  {
    ghost var rest := Pending(buf0, nr0, src);
    buf, nr, written, end, partial := Round(dstout, dsterr, src, buf0, nr0, written0, s, done0);
    RoundMeans(s, done0, rest, src.accepted - s.accepted, written0, end, partial);
    assert end.Some? || Pending(buf, nr, src) == Rest(rest);
    done := if end.None? then done0 + partial else done0;
  }

  /** What a round means for the stream. */
  lemma RoundMeans(s: Start, done: seq<Frame>, rest: seq<byte>, got: nat, written: nat,
                   end: Option<Outcome>, partial: seq<Frame>)
    ensures Reached(s, done, rest, written) && Does(s, done, rest, got, end, partial) ==>
      if end.None? then
        Reached(s, done + partial, Rest(rest), Tally(written, rest, end)) && |Rest(rest)| < |rest|
      else Reports(s, got, Tally(written, rest, end), end.value, done, partial)
  {
    if Reached(s, done, rest, written) && Does(s, done, rest, got, end, partial) {
      if end.None? {
        var all := done + partial;
        assert all[..|done|] == done && all[|done|] == Front(rest);
        assert Delivers(s, done, rest, Front(rest), Rest(rest));
      } else {
        var t := TrailTo(s, done, rest, written);
        ComesToEnd(s, t, rest, got, written, end.value, partial);
      }
    }
  }

  /** How far a copy has come: the delivered frames, and the bytes that held them. */
  datatype Trail = Trail(consumed: seq<byte>, done: seq<Frame>)

  /** The trail covers the beginning of the stream, and `rest` follows it. */
  ghost predicate Stands(stream: seq<byte>, t: Trail, rest: seq<byte>) {
    stream == t.consumed + rest && Wire(t.consumed, t.done)
  }

  /** The delivered frames are those on the wire so far, all of them were accepted, and their bytes counted. */
  lemma {:induction false} TrailTo(s: Start, done: seq<Frame>, rest: seq<byte>, written: nat) returns (t: Trail)
    requires Reached(s, done, rest, written)
    ensures t.done == done && Stands(s.stream, t, rest) && written == Volume(done) && Accepted(s, done)
    decreases |done|
  {
    if done == [] {
      assert [] + rest == rest;
      return Trail([], []);
    }
    var init, f := done[..|done| - 1], done[|done| - 1];
    assert done == init + [f];
    var prev, w: nat :| Reached(s, init, prev, w) && Delivers(s, init, prev, f, rest) && written == w + |f.payload|;
    var t0 := TrailTo(s, init, prev, w);
    t := Longer(s, t0, prev, f, rest);
  }

  lemma Longer(s: Start, t: Trail, rest: seq<byte>, f: Frame, next: seq<byte>) returns (t': Trail)
    requires Stands(s.stream, t, rest) && Accepted(s, t.done) && Delivers(s, t.done, rest, f, next)
    ensures t'.done == t.done + [f] && Stands(s.stream, t', next)
    ensures Volume(t'.done) == Volume(t.done) + |f.payload| && Accepted(s, t'.done)
  {
    Advances(s.stream, t, rest, f);
    VolumeAppend(t.done, f);
    AcceptedGrows(s, t.done, f);
    t' := Trail(t.consumed + rest[..PREFIX_LEN + FrameSize(rest)], t.done + [f]);
  }

  /** A round that ends the copy. */
  lemma ComesToEnd(s: Start, t: Trail, rest: seq<byte>, got: nat, written: nat, end: Outcome, partial: seq<Frame>)
    requires Stands(s.stream, t, rest) && written == Volume(t.done) && Accepted(s, t.done)
    requires Does(s, t.done, rest, got, Some(end), partial)
    ensures Reports(s, got, Tally(written, rest, Some(end)), end, t.done, partial)
  {
    if Refused(end) {
      Advances(s.stream, t, rest, Front(rest));
      NextOf(t.done, Front(rest), Decode(s.stream).frames);
    } else if end.SourceFailed? {
      var good: nat :| FailsAt(s, rest, got, good);
      FailsEarly(s, t, rest, got, good, end);
    } else {
      Ends(s.stream, t, rest, EndOf(end));
    }
  }

  lemma NextOf(done: seq<Frame>, f: Frame, frames: seq<Frame>)
    requires done + [f] <= frames
    ensures done < frames && frames[|done|] == f
  {
  }

  lemma FailsEarly(s: Start, t: Trail, rest: seq<byte>, got: nat, good: nat, end: Outcome)
    requires Stands(s.stream, t, rest) && FailsAt(s, rest, got, good) && end.SourceFailed?
    ensures |s.stream| - (if s.endsWithData then s.lastChunk else 0) <= got <= |s.stream|
    ensures Decode(Considered(s, got, end)) == Decoded(t.done, Exhausted)
  {
    assert got == |t.consumed| + good;
    assert Considered(s, got, end) == s.stream[..got] by {
      assert s.stream[..|s.stream|] == s.stream;
    }
    EndsEarly(s.stream, t, rest, good);
  }

  /** Decoding stops where no deliverable frame follows the delivered ones. */
  lemma Ends(stream: seq<byte>, t: Trail, rest: seq<byte>, end: End)
    requires Stands(stream, t, rest) && Tail(rest, end)
    ensures Decode(stream) == Decoded(t.done, end)
  {
    assert stream[..|t.consumed|] == t.consumed && stream[|t.consumed|..] == rest;
    DecodeUnique(stream, |t.consumed|, t.done, end);
  }

  lemma EndsEarly(stream: seq<byte>, t: Trail, rest: seq<byte>, good: nat)
    requires Stands(stream, t, rest) && good <= |rest| && Tail(rest[..good], Exhausted)
    ensures Decode(stream[..|t.consumed| + good]) == Decoded(t.done, Exhausted)
  {
    assert stream[..|t.consumed| + good] == t.consumed + rest[..good];
    Ends(stream[..|t.consumed| + good], t, rest[..good], Exhausted);
  }

  /** One more frame is delivered. */
  lemma Advances(stream: seq<byte>, t: Trail, rest: seq<byte>, f: Frame)
    requires Stands(stream, t, rest)
    requires Complete(rest) && f == Frame(rest[0], Payload(rest)) && f.stream <= STDERR
    ensures Stands(stream, Trail(t.consumed + rest[..PREFIX_LEN + FrameSize(rest)], t.done + [f]), Rest(rest))
    ensures t.done + [f] <= Decode(stream).frames
  {
    var b := rest[..PREFIX_LEN + FrameSize(rest)];
    assert Payload(b) == Payload(rest) && Rest(b) == [];
    assert [f][1..] == [];
    assert Wire(b, [f]);
    WireAppend(t.consumed, t.done, b, f);
    assert stream == t.consumed + b + Rest(rest);
    DecodeWire(t.consumed + b, t.done + [f], Rest(rest));
  }

  // -------------------------------------------------------------- consequences

  lemma {:induction false} AcceptedAt(s: Start, fs: seq<Frame>, all: seq<Frame>, n: nat)
    requires Accepted(s, fs) && fs <= all
    ensures n < |fs| ==> VerdictOn(s, all[..n], all[n]) == Copied
  {
    if n < |fs| {
      var last := |fs| - 1;
      if n < last {
        AcceptedAt(s, fs[..last], all, n);
      } else {
        assert all[..n] == fs[..last];
      }
    }
  }

  /** The delivered frames are all of the decoder's, or those before the first one the writers refuse. */
  lemma RefusedExactly(s: Start, got: nat, w: nat, o: Outcome, d: seq<Frame>, p: seq<Frame>)
    requires s.ending == ReadEof || !s.endsWithData
    requires Reports(s, got, w, o, d, p)
    ensures d <= Decode(s.stream).frames
    ensures Refused(o) <==> !Accepted(s, Decode(s.stream).frames)
    ensures !Refused(o) ==> d == Decode(s.stream).frames
  {
    var frames := Decode(s.stream).frames;
    if Refused(o) {
      assert frames[..|d|] == d;
      assert VerdictOn(s, frames[..|d|], frames[|d|]) != Copied;
      if Accepted(s, frames) {
        AcceptedAt(s, frames, frames, |d|);
      }
    } else {
      assert s.stream[..|s.stream|] == s.stream;
    }
  }

  /** Where the writers refuse a frame, no accepted beginning of the frames reaches further. */
  lemma FirstRefused(s: Start, o: Outcome, d: seq<Frame>, p: seq<Frame>, fs: seq<Frame>)
    requires TakenInPart(s, o, d, p) && !o.Copied?
    requires Accepted(s, fs) && fs <= Decode(s.stream).frames
    ensures |fs| <= |d|
  {
    var frames := Decode(s.stream).frames;
    assert frames[..|d|] == d;
    AcceptedAt(s, fs, frames, |d|);
  }

  /** Source and writers determine what is delivered and what is reported. */
  lemma Determined(s: Start, g1: nat, g2: nat, w1: nat, w2: nat, o1: Outcome, o2: Outcome,
                   d1: seq<Frame>, d2: seq<Frame>, p1: seq<Frame>, p2: seq<Frame>)
    requires s.ending == ReadEof || !s.endsWithData
    requires Reports(s, g1, w1, o1, d1, p1) && Reports(s, g2, w2, o2, d2, p2)
    ensures w1 == w2 && o1 == o2 && d1 == d2 && p1 == p2
  {
    RefusedExactly(s, g1, w1, o1, d1, p1);
    RefusedExactly(s, g2, w2, o2, d2, p2);
    if Refused(o1) {
      FirstRefused(s, o1, d1, p1, d2);
      FirstRefused(s, o2, d2, p2, d1);
      SameLength(d1, d2, Decode(s.stream).frames);
    } else {
      SameEnd(s, g1, g2, w1, w2, o1, o2, d1, p1, p2);
    }
  }

  lemma SameLength(d1: seq<Frame>, d2: seq<Frame>, frames: seq<Frame>)
    requires d1 <= frames && d2 <= frames && |d1| == |d2|
    ensures d1 == d2
  {
  }

  lemma SameEnd(s: Start, g1: nat, g2: nat, w1: nat, w2: nat, o1: Outcome, o2: Outcome,
                d: seq<Frame>, p1: seq<Frame>, p2: seq<Frame>)
    requires s.ending == ReadEof || !s.endsWithData
    requires Explains(s, g1, w1, o1, d, p1) && Explains(s, g2, w2, o2, d, p2) && !Refused(o1) && !Refused(o2)
    ensures w1 == w2 && o1 == o2 && p1 == p2
  {
    assert s.stream[..|s.stream|] == s.stream;
  }

  /**
   Two readers of the same stream cannot be told apart, however they split it,
   if both end by EOF or both fail in the same way after the last byte; this
   holds for writers that fail as well.
   */
  lemma ChunkingIrrelevant(s1: Start, s2: Start, g1: nat, g2: nat, w1: nat, w2: nat, o1: Outcome, o2: Outcome,
                           d1: seq<Frame>, d2: seq<Frame>, p1: seq<Frame>, p2: seq<Frame>)
    requires s2 == s1.(endsWithData := s2.endsWithData, accepted := s2.accepted, lastChunk := s2.lastChunk)
    requires s1.ending == ReadEof || (!s1.endsWithData && !s2.endsWithData)
    requires Reports(s1, g1, w1, o1, d1, p1) && Reports(s2, g2, w2, o2, d2, p2)
    ensures w1 == w2 && o1 == o2 && d1 == d2 && p1 == p2
  {
    OtherReader(s2, s1, g2, w2, o2, d2, p2);
    Determined(s1, g1, |s1.stream|, w1, w2, o1, o2, d1, d2, p1, p2);
  }

  /** What is reported for one reader would be right for the other. */
  lemma OtherReader(s: Start, t: Start, got: nat, w: nat, o: Outcome, d: seq<Frame>, p: seq<Frame>)
    requires t == s.(endsWithData := t.endsWithData, accepted := t.accepted, lastChunk := t.lastChunk)
    requires s.ending == ReadEof || !s.endsWithData
    requires Reports(s, got, w, o, d, p)
    ensures Reports(t, |t.stream|, w, o, d, p)
  {
    SameWriters(s, t, d);
  }

  lemma {:induction false} SameWriters(s: Start, t: Start, fs: seq<Frame>)
    requires t == s.(endsWithData := t.endsWithData, accepted := t.accepted, lastChunk := t.lastChunk)
    ensures Accepted(s, fs) <==> Accepted(t, fs)
    ensures forall f :: VerdictOn(s, fs, f) == VerdictOn(t, fs, f) && PartOf(s, fs, f) == PartOf(t, fs, f)
  {
    if fs != [] {
      SameWriters(s, t, fs[..|fs| - 1]);
    }
  }

  /**
   Copying what a multiplexing writer produced delivers its frames exactly when
   the writers take them; a truncated last frame is dropped.
   */
  lemma CopyUndoesEncode(fs: seq<Frame>, cut: seq<byte>, s: Start, got: nat, w: nat, o: Outcome,
                         d: seq<Frame>, p: seq<Frame>)
    requires Encodable(fs) && Tail(cut, Exhausted) && s.stream == Encode(fs) + cut && s.ending == ReadEof
    requires Reports(s, got, w, o, d, p)
    ensures o == Copied <==> Accepted(s, fs)
    ensures o == Copied ==> d == fs && p == [] && w == Volume(fs)
  {
    RoundTrip(fs, cut);
    RefusedExactly(s, got, w, o, d, p);
  }

  /** Writers whose plans are over refuse nothing, for every source. */
  lemma ReliableWriters(s: Start, got: nat, w: nat, o: Outcome, d: seq<Frame>, p: seq<Frame>)
    requires s.outTurn >= |s.outPlan| && s.errTurn >= |s.errPlan|
    requires Reports(s, got, w, o, d, p)
    ensures !Refused(o)
  {
  }

  /** A short message on streams 0 and 1 arrives at standard output, on stream 2 at standard error. */
  lemma MessageArrives(id: byte, text: seq<byte>, s: Start, got: nat, w: nat, o: Outcome, d: seq<Frame>, p: seq<Frame>)
    requires id <= 2 && |text| < 256 && s.stream == [id, 0, 0, 0, 0, 0, 0, |text| as byte] + text
    requires s.ending == ReadEof && s.outTurn >= |s.outPlan| && s.errTurn >= |s.errPlan|
    requires Reports(s, got, w, o, d, p)
    ensures o == Copied && w == |text| && p == []
    ensures Routed(d, true, s.shared) == if id == 2 && !s.shared then [] else text
    ensures Routed(d, s.shared, true) == if id == 2 || s.shared then text else []
  {
    ReliableWriters(s, got, w, o, d, p);
    OneMessage(id, 0, 0, 0, text);
    var f := Frame(id, text);
    assert d == [f];
    RoutedAppend([], f, true, s.shared);
    RoutedAppend([], f, s.shared, true);
    VolumeAppend([], f);
    assert [] + [f] == [f];
  }
}
