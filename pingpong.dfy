/** The crate-level example of src/lib.rs: a server whose messages are JSON strings and
    whose handler answers "ping" with "pong". The codec here is a small stand-in for
    `serde_json` on strings: it handles printable ASCII without quotes or backslashes,
    which needs no escapes, and rejects everything else. */
module PingPong {
  import opened Results
  import opened Wire
  import opened Streams
  import opened Serializer
  import opened Channel
  import opened Server

  const QUOTE: byte := 0x22

  /** A character that a JSON string holds as itself. */
  predicate PlainChar(c: char) {
    ' ' <= c <= '~' && c != '"' && c != '\\'
  }

  predicate Plain(s: string) {
    forall i | 0 <= i < |s| :: PlainChar(s[i])
  }

  predicate PlainByte(b: byte) {
    0x20 <= b <= 0x7E && b != 0x22 && b != 0x5C
  }

  predicate PlainBytes(b: seq<byte>) {
    forall i | 0 <= i < |b| :: PlainByte(b[i])
  }

  function ToBytes(s: string): (b: seq<byte>)
    requires Plain(s)
    ensures |b| == |s| && PlainBytes(b)
    ensures forall i | 0 <= i < |s| :: b[i] == s[i] as int
  {
    seq(|s|, i requires 0 <= i < |s| => s[i] as int)
  }

  function ToChars(b: seq<byte>): (s: string)
    requires PlainBytes(b)
    ensures |s| == |b| && Plain(s)
    ensures forall i | 0 <= i < |b| :: s[i] as int == b[i]
  {
    seq(|b|, i requires 0 <= i < |b| => b[i] as char)
  }

  /** A JSON string literal: the characters between two quotes. */
  function Encode(s: string): Result<seq<byte>, JsonError> {
    if Plain(s) then Ok([QUOTE] + ToBytes(s) + [QUOTE]) else Err(JsonError(1))
  }

  function Decode(b: seq<byte>): Result<string, JsonError> {
    if 2 <= |b| && b[0] == QUOTE && b[|b| - 1] == QUOTE && PlainBytes(b[1..|b| - 1])
    then Ok(ToChars(b[1..|b| - 1]))
    else Err(JsonError(2))
  }

  const Strings: LineJson<string> := LineJson(Encode, Decode)

  /** Every plain string meets the codec assumptions line framing relies on. */
  lemma StringsRoundTrip(s: string)
    requires Plain(s)
    ensures RoundTrips(Strings, s)
  {
    var e := [QUOTE] + ToBytes(s) + [QUOTE];
    assert e[1..|e| - 1] == ToBytes(s);
    assert ToChars(ToBytes(s)) == s;
    assert NEWLINE !in e by {
      forall k | 0 <= k < |e| ensures e[k] != NEWLINE {
        if 0 < k < |e| - 1 {
          assert e[k] == ToBytes(s)[k - 1];
        }
      }
    }
    assert IsAscii(e) by {
      forall k | 0 <= k < |e| ensures e[k] < 0x80 {
        if 0 < k < |e| - 1 {
          assert e[k] == ToBytes(s)[k - 1];
        }
      }
    }
    AsciiIsUtf8(e);
  }

  /** The example's message handler. */
  function PingHandler(message: string): Option<string> {
    if message == "ping" then Some("pong") else None
  }

  /** The bytes of `"ping"` and `"pong"` followed by a newline. */
  const PingLine: seq<byte> := [0x22, 0x70, 0x69, 0x6E, 0x67, 0x22, 0x0A]
  const PongLine: seq<byte> := [0x22, 0x70, 0x6F, 0x6E, 0x67, 0x22, 0x0A]

  lemma PingPongFrames()
    ensures Frame(Encode("ping").value) == PingLine
    ensures Frame(Encode("pong").value) == PongLine
  {
    assert ToBytes("ping") == [0x70, 0x69, 0x6E, 0x67];
    assert ToBytes("pong") == [0x70, 0x6F, 0x6E, 0x67];
  }

  /** One `update` on a reader whose next line is `"ping"` consumes that line and
      writes exactly `"pong"` and a newline, flushed, after what the writer held. */
  lemma PingGetsPong(r: StreamState, w: StreamState)
    requires r.Valid() && w.Valid() && w.capacity == Unbounded
    requires r.pos + |PingLine| <= |r.data| && r.data[r.pos..r.pos + |PingLine|] == PingLine
    ensures UpdateSpec(Strings, PingHandler, Split(r, w)) ==
      Completes(Ok(()), Split(r.(pos := r.pos + |PingLine|), w.(data := w.data + PongLine, flushed := |w.data| + |PongLine|)))
  {
    var r' := r.(pos := r.pos + |PingLine|);
    var w' := w.(data := w.data + PongLine, flushed := |w.data| + |PongLine|);
    PingPongFrames();
    ReadsString(r, "ping", PingLine, r');
    assert PingHandler("ping") == Some("pong");
    PongWrite(w);
    assert Split(r, w).WithReadSide(r') == Split(r', w);
    assert Split(r', w).WithWriteSide(w') == Split(r', w');
  }

  /** A reader whose next line is the frame of a plain string reads that string. */
  lemma ReadsString(r: StreamState, s: string, line: seq<byte>, r': StreamState)
    requires r.Valid() && Plain(s) && Encode(s).Ok? && Frame(Encode(s).value) == line
    requires r.pos + |line| <= |r.data| && r.data[r.pos..r.pos + |line|] == line
    requires r' == r.(pos := r.pos + |line|)
    ensures ReadSpec(Strings, r) == Returns(Ok(s), r')
  {
    StringsRoundTrip(s);
    FrameDecodes(Strings, r, s);
  }

  /** Writing "pong" to an unbounded writer appends and flushes its line. */
  lemma PongWrite(w: StreamState)
    requires w.Valid() && w.capacity == Unbounded
    ensures WriteSpec(Strings, w, "pong") == Effect(Ok(()), w.(data := w.data + PongLine, flushed := |w.data| + |PongLine|))
  {
    PingPongFrames();
    var f := Frame(Strings.encode("pong").value);
    WriteAppendsFrame(Strings, w, "pong");
    var a := WriteSpec(Strings, w, "pong").after;
    assert Fits(w.capacity, |w.data| + |f|);
    assert f[..|f|] == f;
    assert a.data == w.data + PongLine;
  }

  /** Every message other than `"ping"`, such as `"pong"`, is consumed and answered with nothing. */
  lemma OthersGetNothing(r: StreamState, w: StreamState, s: string, line: seq<byte>)
    requires r.Valid() && w.Valid() && Plain(s) && s != "ping"
    requires Encode(s).Ok? && line == Frame(Encode(s).value)
    requires r.pos + |line| <= |r.data| && r.data[r.pos..r.pos + |line|] == line
    ensures UpdateSpec(Strings, PingHandler, Split(r, w)) == Completes(Ok(()), Split(r.(pos := r.pos + |line|), w))
  {
    var r' := r.(pos := r.pos + |line|);
    ReadsString(r, s, line, r');
    assert PingHandler(s) == None;
    assert Split(r, w).WithReadSide(r') == Split(r', w);
  }

  /** The input `"ping"` followed by a newline, as the example's stdin would carry it. */
  lemma PingInputGetsPong(w: StreamState)
    requires w.Valid() && w.capacity == Unbounded
    ensures var r := StreamState(PingLine, 0, |PingLine|, Unbounded);
      UpdateSpec(Strings, PingHandler, Split(r, w)) ==
        Completes(Ok(()), Split(r.(pos := |PingLine|), w.(data := w.data + PongLine, flushed := |w.data| + |PongLine|)))
  {
    var r := StreamState(PingLine, 0, |PingLine|, Unbounded);
    assert r.data[0..|PingLine|] == PingLine;
    PingGetsPong(r, w);
  }

  /** Two pings in a row, each answered with a pong, in order: the second `update` starts
      where the first left both streams, and ends two lines into the reader with two pongs
      written. */
  lemma TwoPingsTwoPongs(r: StreamState, w: StreamState)
    requires r.Valid() && w.Valid() && w.capacity == Unbounded
    requires r.pos + 2 * |PingLine| <= |r.data| && r.data[r.pos..r.pos + 2 * |PingLine|] == PingLine + PingLine
    ensures var r1 := r.(pos := r.pos + |PingLine|);
      var w1 := w.(data := w.data + PongLine, flushed := |w.data| + |PongLine|);
      var r2 := r1.(pos := r1.pos + |PingLine|);
      var w2 := w1.(data := w1.data + PongLine, flushed := |w1.data| + |PongLine|);
      UpdateSpec(Strings, PingHandler, Split(r, w)) == Completes(Ok(()), Split(r1, w1)) &&
      UpdateSpec(Strings, PingHandler, Split(r1, w1)) == Completes(Ok(()), Split(r2, w2)) &&
      r2.pos == r.pos + 2 * |PingLine| && w2.data == w.data + PongLine + PongLine
  {
    var r1 := r.(pos := r.pos + |PingLine|);
    var w1 := w.(data := w.data + PongLine, flushed := |w.data| + |PongLine|);
    SliceSplit(r.data, r.pos, PingLine, PingLine);
    PingGetsPong(r, w);
    PingGetsPong(r1, w1);
  }
}
