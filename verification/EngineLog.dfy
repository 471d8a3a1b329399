/** decode_engine_log_stream: the multiplexed log stream of the Docker Engine.
    A frame is its stream number, three zero bytes, the payload length as four
    big-endian bytes, and the payload. */
module EngineLog {

  type Byte = b: int | 0 <= b < 256

  const MAX_PAYLOAD := 0x1_0000_0000

  datatype Frame = Frame(stream: int, payload: seq<Byte>)

  datatype Error = Truncated | Invalid

  datatype Result = Decoded(stdout: seq<Byte>, stderr: seq<Byte>) | Rejected(error: Error)

  // ------------------------------------------------------ the frame format

  predicate WellFormed(f: Frame) { 1 <= f.stream <= 2 && |f.payload| < MAX_PAYLOAD }

  predicate AllWellFormed(fs: seq<Frame>) { forall f <- fs :: WellFormed(f) }

  function BigEndian(n: nat): seq<Byte>
    requires n < MAX_PAYLOAD
  {
    [n / 0x100_0000, n / 0x1_0000 % 256, n / 0x100 % 256, n % 256]
  }

  /** int.from_bytes(data, "big") */
  function FromBytes(data: seq<Byte>): nat {
    if data == [] then 0 else FromBytes(data[..|data| - 1]) * 256 + data[|data| - 1]
  }

  function Encode(f: Frame): seq<Byte>
    requires WellFormed(f)
  {
    [f.stream, 0, 0, 0] + BigEndian(|f.payload|) + f.payload
  }

  function EncodeAll(fs: seq<Frame>): seq<Byte>
    requires AllWellFormed(fs)
  {
    if fs == [] then [] else Encode(fs[0]) + EncodeAll(fs[1..])
  }

  /** The bytes of one stream, frame after frame. */
  function Stream(fs: seq<Frame>, stream: int): seq<Byte> {
    if fs == [] then [] else (if fs[0].stream == stream then fs[0].payload else []) + Stream(fs[1..], stream)
  }

  // ------------------------------------------------------------- decoding

  datatype Head = Bad(error: Error) | First(frame: Frame, size: nat)

  /** What the decoder makes of the next frame. */
  function ReadFrame(data: seq<Byte>): Head {
    if |data| < 8 then Bad(Truncated)
    else
      var size := FromBytes(data[4..8]);
      if !(1 <= data[0] <= 2) || data[1..4] != [0, 0, 0] || 8 + size > |data| then Bad(Invalid)
      else First(Frame(data[0], data[8..8 + size]), size)
  }

  method DecodeEngineLogStream(data: seq<Byte>) returns (result: Result)
    ensures result.Decoded? <==> exists fs :: AllWellFormed(fs) && EncodeAll(fs) == data
    ensures forall fs :: AllWellFormed(fs) && EncodeAll(fs) == data ==>
              result == Decoded(Stream(fs, 1), Stream(fs, 2))
    ensures forall error :: result == Rejected(error) <==>
              exists fs, rest :: AllWellFormed(fs) && data == EncodeAll(fs) + rest && rest != [] && ReadFrame(rest) == Bad(error)
  {
    var stdout, stderr := [], [];
    var offset := 0;
    ghost var frames: seq<Frame> := [];
    while offset < |data|
      invariant offset <= |data|
      invariant AllWellFormed(frames) && EncodeAll(frames) == data[..offset]
      invariant stdout == Stream(frames, 1) && stderr == Stream(frames, 2)
    {
      ghost var rest := data[offset..];
      assert data == EncodeAll(frames) + rest;
      if offset + 8 > |data| {
        OnlyReading(data, frames, rest, Truncated);
        return Rejected(Truncated);
      }
      var stream, padding, size := data[offset], data[offset + 1..offset + 4], FromBytes(data[offset + 4..offset + 8]);
      assert rest[1..4] == padding && rest[4..8] == data[offset + 4..offset + 8];
      if (stream != 1 && stream != 2) || padding != [0, 0, 0] || offset + 8 + size > |data| {
        OnlyReading(data, frames, rest, Invalid);
        return Rejected(Invalid);
      }
      var payload := data[offset + 8..offset + 8 + size];
      ghost var frame := Frame(stream, payload);
      assert rest[8..8 + size] == payload;
      FrameIsPrefix(rest, frame, size);
      EncodeSnoc(frames, frame);
      StreamSnoc(frames, frame, 1);
      StreamSnoc(frames, frame, 2);
      assert data[..offset + 8 + size] == data[..offset] + rest[..8 + size];
      if stream == 1 {
        stdout := stdout + payload;
      } else {
        stderr := stderr + payload;
      }
      frames := frames + [frame];
      offset := offset + 8 + size;
    }
    assert data[..offset] == data;
    forall fs | AllWellFormed(fs) && EncodeAll(fs) == data ensures fs == frames {
      EncodeInjective(fs, frames);
    }
    forall fs, rest | AllWellFormed(fs) && data == EncodeAll(fs) + rest && rest != [] ensures ReadFrame(rest).First? {
      NoBadTail(frames, fs, rest);
    }
    result := Decoded(stdout, stderr);
  }

  // --------------------------------------------------------------- lemmas

  lemma FourBytes(data: seq<Byte>)
    requires |data| == 4
    ensures var a: int, b: int, c: int, d: int := data[0], data[1], data[2], data[3];
            FromBytes(data) == ((a * 256 + b) * 256 + c) * 256 + d
  {
    var one, two, three := data[..1], data[..2], data[..3];
    assert one[..0] == [] && two[..1] == one && three[..2] == two;
    assert FromBytes(one) == one[0];
    assert FromBytes(two) == FromBytes(one) * 256 + two[1];
    assert FromBytes(three) == FromBytes(two) * 256 + three[2];
  }

  lemma BigEndianInverse(n: nat)
    requires n < MAX_PAYLOAD
    ensures FromBytes(BigEndian(n)) == n
  {
    FourBytes(BigEndian(n));
    hide FromBytes;
    Digits(n);
  }

  lemma Digits(n: nat)
    ensures n / 0x100 / 0x100 == n / 0x1_0000 && n / 0x1_0000 / 0x100 == n / 0x100_0000
    ensures n == ((n / 0x100_0000 * 256 + n / 0x1_0000 % 256) * 256 + n / 0x100 % 256) * 256 + n % 256
  {
    var p := n / 0x100;
    var q := p / 0x100;
    assert q == n / 0x1_0000;
    assert p == q * 256 + p % 256 && q == q / 256 * 256 + q % 256;
  }

  lemma FromBytesInverse(data: seq<Byte>)
    requires |data| == 4
    ensures FromBytes(data) < MAX_PAYLOAD && BigEndian(FromBytes(data)) == data
  {
    FourBytes(data);
    hide FromBytes;
    var a: int, b: int, c: int, d: int := data[0], data[1], data[2], data[3];
    var n := ((a * 256 + b) * 256 + c) * 256 + d;
    assert n / 0x100 == (a * 256 + b) * 256 + c && n % 256 == d;
    Digits(n);
    assert n / 0x1_0000 == a * 256 + b && n / 0x100 % 256 == c;
    assert n / 0x100_0000 == a && n / 0x1_0000 % 256 == b;
  }

  /** Reading undoes encoding, whatever follows. */
  lemma ReadEncoded(f: Frame, rest: seq<Byte>)
    requires WellFormed(f)
    ensures ReadFrame(Encode(f) + rest) == First(f, |f.payload|)
  {
    var data := Encode(f) + rest;
    BigEndianInverse(|f.payload|);
    assert data[4..8] == BigEndian(|f.payload|);
    assert data[1..4] == [0, 0, 0];
    assert data[8..8 + |f.payload|] == f.payload;
  }

  /** And what is read is what was encoded. */
  lemma FrameIsPrefix(data: seq<Byte>, f: Frame, size: nat)
    requires ReadFrame(data) == First(f, size)
    ensures WellFormed(f) && |f.payload| == size && 8 + size <= |data| && Encode(f) == data[..8 + size]
  {
    FromBytesInverse(data[4..8]);
    assert data[..8 + size] == [data[0]] + data[1..4] + data[4..8] + data[8..8 + size];
  }

  lemma {:induction false} EncodeAppend(fs: seq<Frame>, gs: seq<Frame>)
    requires AllWellFormed(fs) && AllWellFormed(gs)
    ensures EncodeAll(fs + gs) == EncodeAll(fs) + EncodeAll(gs)
  {
    if fs == [] {
      assert fs + gs == gs;
    } else {
      assert (fs + gs)[1..] == fs[1..] + gs;
      EncodeAppend(fs[1..], gs);
    }
  }

  lemma EncodeSnoc(fs: seq<Frame>, f: Frame)
    requires AllWellFormed(fs) && WellFormed(f)
    ensures AllWellFormed(fs + [f]) && EncodeAll(fs + [f]) == EncodeAll(fs) + Encode(f)
  {
    EncodeAppend(fs, [f]);
    assert EncodeAll([f]) == Encode(f) + EncodeAll([]);
  }

  lemma {:induction false} StreamAppend(fs: seq<Frame>, gs: seq<Frame>, stream: int)
    ensures Stream(fs + gs, stream) == Stream(fs, stream) + Stream(gs, stream)
  {
    if fs == [] {
      assert fs + gs == gs;
    } else {
      assert (fs + gs)[1..] == fs[1..] + gs;
      StreamAppend(fs[1..], gs, stream);
    }
  }

  lemma StreamSnoc(fs: seq<Frame>, f: Frame, stream: int)
    ensures Stream(fs + [f], stream) == Stream(fs, stream) + (if f.stream == stream then f.payload else [])
  {
    StreamAppend(fs, [f], stream);
    assert Stream([f][1..], stream) == [];
  }

  /** One list of frames encodes to a prefix of another encoding, up to a bad
      rest, only if it is a prefix itself. */
  lemma {:induction false} FramesOfPrefix(fs: seq<Frame>, gs: seq<Frame>, rest: seq<Byte>)
    requires AllWellFormed(fs) && AllWellFormed(gs) && EncodeAll(fs) == EncodeAll(gs) + rest
    ensures gs <= fs && rest == EncodeAll(fs[|gs|..])
  {
    if gs != [] {
      var tail := EncodeAll(gs[1..]) + rest;
      assert EncodeAll(fs) == Encode(gs[0]) + tail;
      ReadEncoded(gs[0], tail);
      assert fs != [];
      ReadEncoded(fs[0], EncodeAll(fs[1..]));
      assert fs[0] == gs[0];
      assert EncodeAll(fs)[|Encode(fs[0])|..] == EncodeAll(fs[1..]) == tail;
      FramesOfPrefix(fs[1..], gs[1..], rest);
      assert fs == [fs[0]] + fs[1..] && gs == [gs[0]] + gs[1..];
    } else {
      assert fs[0..] == fs;
    }
  }

  lemma EncodeInjective(fs: seq<Frame>, gs: seq<Frame>)
    requires AllWellFormed(fs) && AllWellFormed(gs) && EncodeAll(fs) == EncodeAll(gs)
    ensures fs == gs
  {
    assert EncodeAll(gs) == EncodeAll(gs) + [];
    FramesOfPrefix(fs, gs, []);
    FramesOfPrefix(gs, fs, []);
  }

  lemma NoBadTail(frames: seq<Frame>, fs: seq<Frame>, rest: seq<Byte>)
    requires AllWellFormed(frames) && AllWellFormed(fs) && EncodeAll(frames) == EncodeAll(fs) + rest && rest != []
    ensures ReadFrame(rest).First?
  {
    FramesOfPrefix(frames, fs, rest);
    var tail := frames[|fs|..];
    ReadEncoded(tail[0], EncodeAll(tail[1..]));
  }

  /** Where a stream goes bad is settled: it has no encoding, and no other split
      into frames and a bad rest. */
  lemma OnlyReading(data: seq<Byte>, frames: seq<Frame>, rest: seq<Byte>, error: Error)
    requires AllWellFormed(frames) && data == EncodeAll(frames) + rest && rest != [] && ReadFrame(rest) == Bad(error)
    ensures forall fs :: AllWellFormed(fs) ==> EncodeAll(fs) != data
    ensures forall gs, other, e :: AllWellFormed(gs) && data == EncodeAll(gs) + other && other != [] && ReadFrame(other) == Bad(e)
              ==> e == error
  {
    forall fs | AllWellFormed(fs) && EncodeAll(fs) == data ensures false {
      NoBadTail(fs, frames, rest);
    }
    forall gs, other, e | AllWellFormed(gs) && data == EncodeAll(gs) + other && other != [] && ReadFrame(other) == Bad(e)
      ensures e == error {
      SameSplit(frames, rest, gs, other);
    }
  }

  lemma ReadFirst(fs: seq<Frame>, rest: seq<Byte>)
    requires AllWellFormed(fs) && fs != []
    ensures ReadFrame(EncodeAll(fs) + rest) == First(fs[0], |fs[0].payload|)
    ensures (EncodeAll(fs) + rest)[8 + |fs[0].payload|..] == EncodeAll(fs[1..]) + rest
  {
    assert EncodeAll(fs) + rest == Encode(fs[0]) + (EncodeAll(fs[1..]) + rest);
    ReadEncoded(fs[0], EncodeAll(fs[1..]) + rest);
  }

  lemma {:induction false} SameSplit(fs: seq<Frame>, rest: seq<Byte>, gs: seq<Frame>, other: seq<Byte>)
    requires AllWellFormed(fs) && AllWellFormed(gs) && EncodeAll(fs) + rest == EncodeAll(gs) + other
    requires ReadFrame(rest).Bad? && ReadFrame(other).Bad?
    ensures rest == other
  {
    assert fs == [] ==> EncodeAll(fs) + rest == rest;
    assert gs == [] ==> EncodeAll(gs) + other == other;
    hide ReadFrame, Encode, EncodeAll;
    if fs != [] {
      ReadFirst(fs, rest);
    }
    if gs != [] {
      ReadFirst(gs, other);
    }
    if fs != [] && gs != [] {
      SameSplit(fs[1..], rest, gs[1..], other);
    }
  }

  ghost predicate Accepted(data: seq<Byte>) {
    exists fs :: AllWellFormed(fs) && EncodeAll(fs) == data
  }

  /** After an accepted prefix the rest decides. */
  lemma Compositional(a: seq<Byte>, b: seq<Byte>)
    requires Accepted(a)
    ensures Accepted(a + b) <==> Accepted(b)
  {
    var fs :| AllWellFormed(fs) && EncodeAll(fs) == a;
    if Accepted(b) {
      var gs :| AllWellFormed(gs) && EncodeAll(gs) == b;
      EncodeAppend(fs, gs);
      assert AllWellFormed(fs + gs) && EncodeAll(fs + gs) == a + b;
    }
    if Accepted(a + b) {
      var hs :| AllWellFormed(hs) && EncodeAll(hs) == a + b;
      FramesOfPrefix(hs, fs, b);
      assert AllWellFormed(hs[|fs|..]);
    }
  }

  /** A prefix of a valid stream is accepted exactly when it ends between two frames. */
  lemma CutExactly(fs: seq<Frame>, cut: nat)
    requires AllWellFormed(fs) && cut <= |EncodeAll(fs)|
    ensures Accepted(EncodeAll(fs)[..cut])
       <==> exists k :: 0 <= k <= |fs| && cut == |EncodeAll(fs[..k])|
  {
    hide EncodeAll;
    var data := EncodeAll(fs);
    if Accepted(data[..cut]) {
      var gs :| AllWellFormed(gs) && EncodeAll(gs) == data[..cut];
      assert data == EncodeAll(gs) + data[cut..];
      FramesOfPrefix(fs, gs, data[cut..]);
      assert fs[..|gs|] == gs;
    }
    if k :| 0 <= k <= |fs| && cut == |EncodeAll(fs[..k])| {
      CutBetween(fs, k);
    }
  }

  lemma CutBetween(fs: seq<Frame>, k: nat)
    requires AllWellFormed(fs) && k <= |fs|
    ensures AllWellFormed(fs[..k]) && EncodeAll(fs[..k]) <= EncodeAll(fs)
  {
    hide EncodeAll, WellFormed;
    var a, b := fs[..k], fs[k..];
    assert fs == a + b;
    EncodeAppend(a, b);
    assert EncodeAll(fs)[..|EncodeAll(a)|] == EncodeAll(a);
  }

  /** Every byte is payload of one of the two streams or one of eight per frame. */
  lemma {:induction false} BytesConserved(fs: seq<Frame>)
    requires AllWellFormed(fs)
    ensures |EncodeAll(fs)| == |Stream(fs, 1)| + |Stream(fs, 2)| + 8 * |fs|
  {
    if fs != [] {
      assert WellFormed(fs[0]);
      BytesConserved(fs[1..]);
    }
  }

  /** Four bytes, the highest first. */
  function Four(a: int, b: int, c: int, d: int): int {
    ((a * 256 + b) * 256 + c) * 256 + d
  }

  /** A frame on the wire: the stream, three zeros, the size with its highest byte
      first, and the payload; and a stream of one frame. */
  lemma WireFormat(f: Frame)
    requires WellFormed(f)
    ensures var data, n := Encode(f), |f.payload|;
            && |data| == 8 + n && data[0] == f.stream && data[1] == data[2] == data[3] == 0
            && Four(data[4], data[5], data[6], data[7]) == n && data[8..] == f.payload
    ensures forall stream :: Stream([f], stream) == if f.stream == stream then f.payload else []
  {
    BigEndianInverse(|f.payload|);
    FourBytes(BigEndian(|f.payload|));
    assert [f][1..] == [];
  }

  /** What makes the next frame bad: fewer than eight bytes, or a header that is not one
      of two streams and three zeros, or that promises more than there is. */
  lemma BadExactly(data: seq<Byte>)
    ensures ReadFrame(data) == Bad(Truncated) <==> |data| < 8
    ensures ReadFrame(data) == Bad(Invalid)
       <==> && |data| >= 8
            && (|| (data[0] != 1 && data[0] != 2)
                || data[1] != 0 || data[2] != 0 || data[3] != 0
                || Four(data[4], data[5], data[6], data[7]) > |data| - 8)
  {
    if |data| >= 8 {
      FourBytes(data[4..8]);
      assert data[1..4] == [data[1], data[2], data[3]];
    }
  }
}
