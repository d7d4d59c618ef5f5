/**
 The multiplexed stream format: a sequence of frames, each an 8-byte header
 (stream id, three unused bytes, big-endian length) followed by its payload.
 `Decode` is the reference decoder; it knows nothing of buffers or reads.
 */
module StreamFormat {

  newtype byte = x: int | 0 <= x < 256

  const PREFIX_LEN: nat := 8

  const STDERR: byte := 2
  const SYSTEM_ERR: byte := 3

  datatype Frame = Frame(stream: byte, payload: seq<byte>)

  /** Why decoding ends: input exhausted, an error frame, or an unknown stream id. */
  datatype End = Exhausted | DaemonMessage(text: seq<byte>) | BadHeader(code: byte)

  datatype Decoded = Decoded(frames: seq<Frame>, end: End)

  /** binary.BigEndian.Uint32 of four bytes. */
  function BigEndian(a: byte, b: byte, c: byte, d: byte): (n: nat)
    ensures n < 0x1_0000_0000
  {
    (((a as nat) * 256 + b as nat) * 256 + c as nat) * 256 + d as nat
  }

  /** p comes before q in the lexicographic order of four bytes. */
  predicate Before(p: seq<byte>, q: seq<byte>)
    requires |p| == |q| == 4
  {
    || p[0] < q[0]
    || (p[0] == q[0] && p[1] < q[1])
    || (p[..2] == q[..2] && p[2] < q[2])
    || (p[..3] == q[..3] && p[3] < q[3])
  }

  /**
   Lengths are ordered as their bytes are, first byte first. Together with
   `ToBigEndian` this determines the function: all 2^32 lengths occur.
   */
  lemma FirstByteCountsMost(p: seq<byte>, q: seq<byte>)
    requires |p| == |q| == 4
    ensures BigEndian(p[0], p[1], p[2], p[3]) < BigEndian(q[0], q[1], q[2], q[3]) <==> Before(p, q)
  {
    assert p[..2] == [p[0], p[1]] && q[..2] == [q[0], q[1]];
    assert p[..3] == [p[0], p[1], p[2]] && q[..3] == [q[0], q[1], q[2]];
  }

  /** A single byte of length is the last of the header, and stands for itself. */
  lemma ShortLength(a: byte, b: byte, c: byte, d: byte)
    ensures BigEndian(a, b, c, d) < 256 <==> a == b == c == 0
    ensures a == b == c == 0 ==> BigEndian(a, b, c, d) == d as nat
  {
  }

  function FrameSize(s: seq<byte>): nat
    requires |s| >= PREFIX_LEN
  {
    BigEndian(s[4], s[5], s[6], s[7])
  }

  /** s starts with a complete frame. */
  predicate Complete(s: seq<byte>) {
    |s| >= PREFIX_LEN && |s| >= PREFIX_LEN + FrameSize(s)
  }

  function Payload(s: seq<byte>): seq<byte>
    requires Complete(s)
  {
    s[PREFIX_LEN..PREFIX_LEN + FrameSize(s)]
  }

  function Rest(s: seq<byte>): seq<byte>
    requires Complete(s)
  {
    s[PREFIX_LEN + FrameSize(s)..]
  }

  /** The reference decoder. An incomplete last frame is dropped. */
  function Decode(s: seq<byte>): Decoded {
    if |s| < PREFIX_LEN then Decoded([], Exhausted)
    else if s[0] > SYSTEM_ERR then Decoded([], BadHeader(s[0]))
    else if !Complete(s) then Decoded([], Exhausted)
    else if s[0] == SYSTEM_ERR then Decoded([], DaemonMessage(Payload(s)))
    else
      var d := Decode(Rest(s));
      Decoded([Frame(s[0], Payload(s))] + d.frames, d.end)
  }

  // ------------------------------------------------------------- wire relation

  /** c is frames fs on the wire, whatever the unused header bytes hold. */
  ghost predicate Wire(c: seq<byte>, fs: seq<Frame>) {
    if fs == [] then c == []
    else Complete(c) && c[0] == fs[0].stream <= STDERR && Payload(c) == fs[0].payload && Wire(Rest(c), fs[1..])
  }

  /** t does not start with a deliverable frame, for the given reason. */
  ghost predicate Tail(t: seq<byte>, end: End) {
    match end
    case Exhausted => |t| < PREFIX_LEN || (t[0] <= SYSTEM_ERR && !Complete(t))
    case DaemonMessage(text) => Complete(t) && t[0] == SYSTEM_ERR && text == Payload(t)
    case BadHeader(code) => |t| >= PREFIX_LEN && t[0] == code > SYSTEM_ERR
  }

  lemma CompleteExtends(c: seq<byte>, t: seq<byte>)
    requires Complete(c)
    ensures Complete(c + t) && FrameSize(c + t) == FrameSize(c)
    ensures Payload(c + t) == Payload(c) && Rest(c + t) == Rest(c) + t
  {
  }

  /** Decoding what follows complete frames is decoding the frames and then the rest. */
  lemma {:induction false} DecodeWire(c: seq<byte>, fs: seq<Frame>, t: seq<byte>)
    requires Wire(c, fs)
    ensures Decode(c + t) == Decoded(fs + Decode(t).frames, Decode(t).end)
  {
    if fs == [] {
      assert c + t == t;
      assert fs + Decode(t).frames == Decode(t).frames;
    } else {
      CompleteExtends(c, t);
      DecodeWire(Rest(c), fs[1..], t);
      assert [fs[0]] + (fs[1..] + Decode(t).frames) == fs + Decode(t).frames;
    }
  }

  lemma {:induction false} WireAppend(c: seq<byte>, fs: seq<Frame>, b: seq<byte>, f: Frame)
    requires Wire(c, fs) && Wire(b, [f])
    ensures Wire(c + b, fs + [f])
  {
    if fs == [] {
      assert c + b == b && fs + [f] == [f];
    } else {
      CompleteExtends(c, b);
      WireAppend(Rest(c), fs[1..], b, f);
      assert (fs + [f])[1..] == fs[1..] + [f];
    }
  }

  lemma TailDecodes(t: seq<byte>, end: End)
    requires Tail(t, end)
    ensures Decode(t) == Decoded([], end)
  {
  }

  /** The input is the decoded frames on the wire up to n, and a tail that explains the end. */
  ghost predicate SplitsAt(s: seq<byte>, n: nat) {
    n <= |s| && Wire(s[..n], Decode(s).frames) && Tail(s[n..], Decode(s).end)
  }

  /** Where the decoder stops: the input is its frames on the wire and a tail that explains the end. */
  lemma {:induction false} DecodeSplits(s: seq<byte>) returns (n: nat)
    ensures SplitsAt(s, n)
  {
    if Complete(s) && s[0] <= STDERR {
      var m := DecodeSplits(Rest(s));
      n := PREFIX_LEN + FrameSize(s) + m;
      FrameThenSplit(s, m);
    } else {
      n := 0;
      NothingToDeliver(s);
    }
  }

  lemma NothingToDeliver(s: seq<byte>)
    requires !(Complete(s) && s[0] <= STDERR)
    ensures SplitsAt(s, 0)
  {
    assert s[0..] == s;
  }

  lemma FrameThenSplit(s: seq<byte>, m: nat)
    requires Complete(s) && s[0] <= STDERR && SplitsAt(Rest(s), m)
    ensures SplitsAt(s, PREFIX_LEN + FrameSize(s) + m)
  {
    CutAfterFrame(s, m);
    assert Decode(s).frames[1..] == Decode(Rest(s)).frames;
  }

  /** Cutting behind the first frame cuts what follows it. */
  lemma CutAfterFrame(s: seq<byte>, m: nat)
    requires Complete(s) && m <= |Rest(s)|
    ensures var n := PREFIX_LEN + FrameSize(s) + m;
      && Complete(s[..n]) && s[..n][0] == s[0] && Payload(s[..n]) == Payload(s)
      && Rest(s[..n]) == Rest(s)[..m] && s[n..] == Rest(s)[m..]
  {
    var n := PREFIX_LEN + FrameSize(s) + m;
    assert FrameSize(s[..n]) == FrameSize(s);
  }

  /** Decode is the only function with that property: a split determines its result. */
  lemma DecodeUnique(s: seq<byte>, n: nat, fs: seq<Frame>, end: End)
    requires n <= |s| && Wire(s[..n], fs) && Tail(s[n..], end)
    ensures Decode(s) == Decoded(fs, end)
  {
    DecodeWire(s[..n], fs, s[n..]);
    TailDecodes(s[n..], end);
    assert s[..n] + s[n..] == s;
    assert fs + [] == fs;
  }

  /**
   A short message byte by byte: stream id, three bytes that are ignored, the
   length in the last of four bytes, the text. Ids 0 to 2 are delivered, 3 is a
   message of the daemon, anything else is refused.
   */
  lemma OneMessage(id: byte, x: byte, y: byte, z: byte, text: seq<byte>)
    requires |text| < 256
    ensures Decode([id, x, y, z, 0, 0, 0, |text| as byte] + text) ==
      if id <= 2 then Decoded([Frame(id, text)], Exhausted)
      else if id == 3 then Decoded([], DaemonMessage(text))
      else Decoded([], BadHeader(id))
  {
    var s := [id, x, y, z, 0, 0, 0, |text| as byte] + text;
    MessageParts(id, x, y, z, text);
    assert Rest(s) == [] && Decode([]) == Decoded([], Exhausted);
  }

  lemma MessageParts(id: byte, x: byte, y: byte, z: byte, text: seq<byte>)
    requires |text| < 256
    ensures var s := [id, x, y, z, 0, 0, 0, |text| as byte] + text;
      Complete(s) && s[0] == id && Payload(s) == text && |Rest(s)| == 0
  {
    var s := [id, x, y, z, 0, 0, 0, |text| as byte] + text;
    ShortLength(s[4], s[5], s[6], s[7]);
    assert FrameSize(s) == |text|;
  }

  /** The ten bytes of a two-letter message to standard output. */
  lemma TenBytes()
    ensures Decode([1, 0, 0, 0, 0, 0, 0, 2, 104, 105]) == Decoded([Frame(1, [104, 105])], Exhausted)
  {
    OneMessage(1, 0, 0, 0, [104, 105]);
    assert [1, 0, 0, 0, 0, 0, 0, 2] + [104, 105] == [1, 0, 0, 0, 0, 0, 0, 2, 104, 105];
  }

  // ------------------------------------------------------------- round trip

  function ToBigEndian(n: nat): (b: seq<byte>)
    requires n < 0x1_0000_0000
    ensures |b| == 4 && BigEndian(b[0], b[1], b[2], b[3]) == n
    ensures n < 256 ==> b == [0, 0, 0, n as byte]
  {
    var n1 := n / 256;
    var n2 := n1 / 256;
    var n3 := n2 / 256;
    [n3 as byte, (n2 % 256) as byte, (n1 % 256) as byte, (n % 256) as byte]
  }

  ghost predicate Encodable(fs: seq<Frame>) {
    forall i :: 0 <= i < |fs| ==> fs[i].stream <= STDERR && |fs[i].payload| < 0x1_0000_0000
  }

  /** What a multiplexing writer puts on the wire. */
  function Encode(fs: seq<Frame>): seq<byte>
    requires Encodable(fs)
  {
    if fs == [] then []
    else [fs[0].stream, 0, 0, 0] + ToBigEndian(|fs[0].payload|) + fs[0].payload + Encode(fs[1..])
  }

  lemma {:induction false} EncodeIsWire(fs: seq<Frame>)
    requires Encodable(fs)
    ensures Wire(Encode(fs), fs)
  {
    if fs != [] {
      EncodeIsWire(fs[1..]);
      var c := Encode(fs);
      assert FrameSize(c) == |fs[0].payload|;
      assert Payload(c) == fs[0].payload;
      assert Rest(c) == Encode(fs[1..]);
    }
  }

  /** Demultiplexing undoes multiplexing, and drops a truncated frame at the end. */
  lemma RoundTrip(fs: seq<Frame>, t: seq<byte>)
    requires Encodable(fs) && Tail(t, Exhausted)
    ensures Decode(Encode(fs) + t) == Decoded(fs, Exhausted)
  {
    EncodeIsWire(fs);
    DecodeWire(Encode(fs), fs, t);
    TailDecodes(t, Exhausted);
    assert fs + [] == fs;
  }
}
