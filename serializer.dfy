/** The serializer contract of src/serializer.rs and its line-delimited JSON
    implementation. The JSON codec itself is not modelled: a serializer carries an
    `encode` and a `decode` function about which only what `RoundTrips` assumes is known. */
module Serializer {
  import opened Results
  import opened Wire
  import opened Streams

  /** A `serde_json::Error`, kept opaque. */
  datatype JsonError = JsonError(code: nat)

  /** The serializer's `Error` type; `?` converts both sources into it with `From`, losing nothing. */
  datatype Error = Io(io: IoError) | Json(json: JsonError)

  /** A `JsonSerializer` implementor: the codec `serde_json::to_vec` and `serde_json::from_slice` give it. */
  datatype LineJson<!M> = LineJson(encode: M -> Result<seq<byte>, JsonError>, decode: seq<byte> -> Result<M, JsonError>)
  {
    /** `try_read`: reads one line and decodes it unless it is blank. */
    method TryRead(reader: Stream) returns (r: Result<Option<M>, Error>)
      requires reader.Valid()
      modifies reader
      ensures reader.Valid()
      ensures Effect(r, reader.State()) == TryReadSpec(this, old(reader.State()))
    {
      var line := reader.ReadLine();
      match line
      case Err(e) =>
        r := Err(Io(e));
      case Ok(buf) =>
        var trimmed := TrimAscii(buf);
        if trimmed != [] {
          match decode(trimmed)
          case Ok(m) => r := Ok(Some(m));
          case Err(e) => r := Err(Json(e));
        } else {
          r := Ok(None);
        }
    }

    /** The default `read`: calls `try_read` until it yields a message or an error.
        It returns only if some byte ahead is not whitespace (`ReadReturnsUnlessBlank`). */
    method Read(reader: Stream) returns (r: Result<M, Error>)
      requires reader.Valid() && !Blank(reader.State().Unread())
      modifies reader
      ensures reader.Valid()
      ensures ReadSpec(this, old(reader.State())) == Returns(r, reader.State())
    {
      ReadReturnsUnlessBlank(this, reader.State());
      while true
        invariant reader.Valid()
        invariant ReadSpec(this, reader.State()) == ReadSpec(this, old(reader.State()))
        invariant ReadSpec(this, reader.State()).Returns?
        decreases |reader.data| - reader.pos
      {
        var step := TryRead(reader);
        match step
        case Err(e) => return Err(e);
        case Ok(Some(m)) => return Ok(m);
        case Ok(None) =>
      }
    }

    /** `write`: the encoding, then a newline, then a flush; the first failure is returned. */
    method Write(writer: Stream, message: M) returns (r: Result<(), Error>)
      requires writer.Valid()
      modifies writer
      ensures writer.Valid()
      ensures Effect(r, writer.State()) == WriteSpec(this, old(writer.State()), message)
    {
      match encode(message)
      case Err(e) =>
        r := Err(Json(e));
      case Ok(bytes) =>
        var a := writer.WriteAll(bytes);
        if a.Err? {
          return Err(Io(a.error));
        }
        var b := writer.WriteAll([NEWLINE]);
        if b.Err? {
          return Err(Io(b.error));
        }
        writer.Flush();
        r := Ok(());
    }
  }

  /** What `try_read` returns and leaves. */
  function TryReadSpec<M>(ser: LineJson<M>, st: StreamState): (r: Effect<Result<Option<M>, Error>, StreamState>)
    requires st.Valid()
    ensures r.after == st.(pos := LineEnd(st.data, st.pos))
    ensures r.after.Valid()
  {
    var line := ReadLineSpec(st);
    match line.value
    case Err(e) => Effect(Err(Io(e)), line.after)
    case Ok(buf) =>
      var trimmed := TrimAscii(buf);
      if trimmed != [] then
        match ser.decode(trimmed)
        case Ok(m) => Effect(Ok(Some(m)), line.after)
        case Err(e) => Effect(Err(Json(e)), line.after)
      else
        Effect(Ok(None), line.after)
  }

  /** What a call of `read` does: it returns, or it loops forever. */
  datatype ReadOutcome<+T> = Returns(result: Result<T, Error>, after: StreamState) | NeverReturns

  /** The `read` loop: `Ok(None)` steps are skipped, the first message or error ends it.
      At the end of the data `try_read` consumes nothing, so from there the loop spins. */
  function ReadSpec<M>(ser: LineJson<M>, st: StreamState): (r: ReadOutcome<M>)
    requires st.Valid()
    ensures r.Returns? ==> r.after.Valid() && r.after.data == st.data && r.after.flushed == st.flushed
    ensures r.Returns? ==> st.pos < r.after.pos
    decreases |st.data| - st.pos
  {
    var step := TryReadSpec(ser, st);
    match step.value
    case Err(e) => Returns(Err(e), step.after)
    case Ok(Some(m)) => Returns(Ok(m), step.after)
    case Ok(None) =>
      if step.after.pos == st.pos then NeverReturns else ReadSpec(ser, step.after)
  }

  /** What `write` returns and leaves. */
  function WriteSpec<M>(ser: LineJson<M>, st: StreamState, m: M): (r: Effect<Result<(), Error>, StreamState>)
    requires st.Valid()
    ensures r.after.Valid() && r.after.pos == st.pos && r.after.capacity == st.capacity
    ensures ser.encode(m).Err? ==> r == Effect(Err(Json(ser.encode(m).error)), st)
  {
    match ser.encode(m)
    case Err(e) => Effect(Err(Json(e)), st)
    case Ok(bytes) =>
      var a := WriteAllSpec(st, bytes);
      if a.value.Err? then Effect(Err(Io(a.value.error)), a.after)
      else
        var b := WriteAllSpec(a.after, [NEWLINE]);
        if b.value.Err? then Effect(Err(Io(b.value.error)), b.after)
        else Effect(Ok(()), FlushSpec(b.after))
  }

  /** The bytes `write` emits for an encoding. */
  function Frame(e: seq<byte>): seq<byte> {
    e + [NEWLINE]
  }

  /** What line framing needs of an encoding: non-empty, no newline inside, no whitespace
      at either end, UTF-8 (compact `serde_json` output is all of these). */
  predicate WireSafe(e: seq<byte>) {
    e != [] && NEWLINE !in e && Trimmed(e) && ValidUtf8(e)
  }

  /** The codec assumptions for one message: it encodes, the encoding survives line
      framing, and decoding the encoding gives the message back. */
  ghost predicate RoundTrips<M>(ser: LineJson<M>, m: M) {
    ser.encode(m).Ok? && WireSafe(ser.encode(m).value) && ser.decode(ser.encode(m).value) == Ok(m)
  }

  /** `RoundTrips` for every message of a sequence. */
  ghost predicate AllRoundTrip<M>(ser: LineJson<M>, ms: seq<M>) {
    forall i | 0 <= i < |ms| :: RoundTrips(ser, ms[i])
  }

  // ----- try_read

  /** `try_read` yields `Ok(None)` exactly for a blank line, which includes the empty read at the end of the data. */
  lemma TryReadNoneIffBlank<M>(ser: LineJson<M>, st: StreamState)
    requires st.Valid()
    ensures var r := TryReadSpec(ser, st);
      (r.value == Ok(None) <==> Blank(st.data[st.pos..r.after.pos])) &&
      (st.pos == |st.data| ==> r == Effect(Ok(None), st))
  {
    BlankIsUtf8(st.data[st.pos..LineEnd(st.data, st.pos)]);
    TrimAsciiTrims(st.data[st.pos..LineEnd(st.data, st.pos)]);
  }

  /** A blank line, or bytes that are not UTF-8, never reach the decoder: any decoder gives the same step. */
  lemma TryReadBypassesDecoder<M>(ser: LineJson<M>, decode': seq<byte> -> Result<M, JsonError>, st: StreamState)
    requires st.Valid()
    requires var line := st.data[st.pos..LineEnd(st.data, st.pos)]; Blank(line) || !ValidUtf8(line)
    ensures TryReadSpec(ser, st) == TryReadSpec(ser.(decode := decode'), st)
    ensures TryReadSpec(ser, st).value ==
      if ValidUtf8(st.data[st.pos..LineEnd(st.data, st.pos)]) then Ok(None) else Err(Io(InvalidData))
  {
    TrimAsciiTrims(st.data[st.pos..LineEnd(st.data, st.pos)]);
  }

  /** A non-blank UTF-8 line is decoded after trimming; the decoder's error is passed on unchanged. */
  lemma TryReadDecodesTrimmedLine<M>(ser: LineJson<M>, st: StreamState)
    requires st.Valid()
    requires var line := st.data[st.pos..LineEnd(st.data, st.pos)]; !Blank(line) && ValidUtf8(line)
    ensures var trimmed := TrimAscii(st.data[st.pos..LineEnd(st.data, st.pos)]);
      trimmed != [] &&
      TryReadSpec(ser, st).value == match ser.decode(trimmed)
        case Ok(m) => Ok(Some(m))
        case Err(e) => Err(Json(e))
  {
    TrimAsciiTrims(st.data[st.pos..LineEnd(st.data, st.pos)]);
  }

  /** Framing: a frame written at the cursor is read back as its message, consuming exactly the frame. */
  lemma FrameDecodes<M>(ser: LineJson<M>, st: StreamState, m: M)
    requires st.Valid() && RoundTrips(ser, m)
    requires var f := Frame(ser.encode(m).value);
      st.pos + |f| <= |st.data| && st.data[st.pos..st.pos + |f|] == f
    ensures TryReadSpec(ser, st) == Effect(Ok(Some(m)), st.(pos := st.pos + |Frame(ser.encode(m).value)|))
    ensures ReadSpec(ser, st) == Returns(Ok(m), st.(pos := st.pos + |Frame(ser.encode(m).value)|))
  {
    StartsAtSlice(st.data, st.pos, Frame(ser.encode(m).value));
    LineDecodes(ser, st, ser.encode(m).value, m, st.(pos := st.pos + |Frame(ser.encode(m).value)|));
  }

  /** A frame of a wire-safe encoding that decodes to `m` is read as `m`, leaving the cursor at `a`. */
  lemma LineDecodes<M>(ser: LineJson<M>, st: StreamState, e: seq<byte>, m: M, a: StreamState)
    requires st.Valid() && WireSafe(e) && ser.decode(e) == Ok(m)
    requires StartsAt(st.data, st.pos, Frame(e))
    requires a == st.(pos := st.pos + |Frame(e)|)
    ensures TryReadSpec(ser, st) == Effect(Ok(Some(m)), a)
    ensures ReadSpec(ser, st) == Returns(Ok(m), a)
  {
    FrameIsLine(st, e);
    assert TrimAscii(Frame(e)) == e by {
      assert [] + e + [NEWLINE] == Frame(e);
      TrimAsciiPadded([], e, [NEWLINE]);
    }
  }

  /** A frame of a wire-safe encoding at the cursor is one line, and valid UTF-8. */
  lemma FrameIsLine(st: StreamState, e: seq<byte>)
    requires st.Valid() && WireSafe(e)
    requires StartsAt(st.data, st.pos, Frame(e))
    ensures st.pos + |Frame(e)| <= |st.data|
    ensures ReadLineSpec(st) == Effect(Ok(Frame(e)), st.(pos := st.pos + |Frame(e)|))
  {
    StartsAtSlice(st.data, st.pos, Frame(e));
    var f := Frame(e);
    var nl := st.pos + |e|;
    assert LineEnd(st.data, st.pos) == nl + 1 by {
      forall k | st.pos <= k < nl ensures st.data[k] != NEWLINE {
        assert st.data[k] == f[k - st.pos] == e[k - st.pos];
      }
      assert st.data[nl] == f[|e|];
      LineEndAfterRun(st.data, st.pos, nl);
    }
    assert ValidUtf8(f) by {
      AsciiIsUtf8([NEWLINE]);
      Utf8Concat(e, [NEWLINE]);
    }
  }

  // ----- read

  /** Skipping: an `Ok(None)` step with progress leaves the result to the steps after it. */
  lemma ReadSkipsEmptyStep<M>(ser: LineJson<M>, st: StreamState)
    requires st.Valid() && st.pos < |st.data|
    requires TryReadSpec(ser, st).value == Ok(None)
    ensures ReadSpec(ser, st) == ReadSpec(ser, TryReadSpec(ser, st).after)
  {
  }

  /** The first message or error a step yields is what `read` returns, with nothing changed after it. */
  lemma ReadStopsAtFirstResult<M>(ser: LineJson<M>, st: StreamState)
    requires st.Valid()
    requires TryReadSpec(ser, st).value != Ok(None)
    ensures var step := TryReadSpec(ser, st);
      ReadSpec(ser, st) == Returns(match step.value case Ok(m) => Ok(m.value) case Err(e) => Err(e), step.after)
  {
  }

  /** `read` returns exactly when some byte ahead is not ASCII whitespace; otherwise it consumes
      the blank lines and spins at the end of the data. */
  lemma {:induction false} ReadReturnsUnlessBlank<M>(ser: LineJson<M>, st: StreamState)
    requires st.Valid()
    ensures ReadSpec(ser, st).NeverReturns? <==> Blank(st.Unread())
    decreases |st.data| - st.pos
  {
    var step := TryReadSpec(ser, st);
    var end := step.after.pos;
    var line := st.data[st.pos..end];
    assert st.Unread() == line + step.after.Unread();
    BlankSplit(line, step.after.Unread());
    TryReadNoneIffBlank(ser, st);
    if step.value == Ok(None) && end != st.pos {
      ReadReturnsUnlessBlank(ser, step.after);
    }
  }

  // ----- write

  /** `write` appends a prefix of the frame: all of it, flushed, exactly when it succeeds, which is
      exactly when the frame fits; a failed `write_all` reports `WriteZero`. */
  lemma WriteAppendsFrame<M>(ser: LineJson<M>, st: StreamState, m: M)
    requires st.Valid() && ser.encode(m).Ok?
    ensures var f := Frame(ser.encode(m).value);
      var r := WriteSpec(ser, st, m);
      |st.data| <= |r.after.data| <= |st.data| + |f| &&
      r.after.data == st.data + f[..|r.after.data| - |st.data|] &&
      (r.value.Ok? <==> Fits(st.capacity, |st.data| + |f|)) &&
      (r.value.Ok? ==> |r.after.data| == |st.data| + |f| && r.after.flushed == |r.after.data|) &&
      (r.value.Err? ==> r.value.error == Io(WriteZero) && r.after.flushed == st.flushed)
  {
    var e := ser.encode(m).value;
    var f := Frame(e);
    var a := WriteAllSpec(st, e);
    WriteAllAppendsPrefix(st, e);
    if a.value.Ok? {
      assert a.after.data == st.data + e;
      var b := WriteAllSpec(a.after, [NEWLINE]);
      WriteAllAppendsPrefix(a.after, [NEWLINE]);
      if b.value.Ok? {
        assert b.after.data == st.data + f;
      } else {
        assert b.after.data == st.data + f[..|e|];
        assert !Fits(st.capacity, |st.data| + |f|);
      }
    } else {
      assert f[..|a.after.data| - |st.data|] == e[..|a.after.data| - |st.data|];
      assert !Fits(st.capacity, |st.data| + |f|);
    }
  }

  /** Round trip: what one `write` puts into a stream, `try_read` and `read` from the frame's start give back. */
  lemma WriteThenRead<M>(ser: LineJson<M>, st: StreamState, m: M)
    requires st.Valid() && RoundTrips(ser, m)
    requires WriteSpec(ser, st, m).value.Ok?
    ensures var w := WriteSpec(ser, st, m).after;
      TryReadSpec(ser, w.(pos := |st.data|)) == Effect(Ok(Some(m)), w.(pos := |w.data|)) &&
      ReadSpec(ser, w.(pos := |st.data|)) == Returns(Ok(m), w.(pos := |w.data|))
  {
    var f := Frame(ser.encode(m).value);
    WriteAppendsFrame(ser, st, m);
    var w := WriteSpec(ser, st, m).after;
    assert w.data[|st.data|..|st.data| + |f|] == f;
    FrameDecodes(ser, w.(pos := |st.data|), m);
  }

  // ----- ordering

  /** The bytes one `write` of `m` emits into a stream with room to spare (none if `m` does not encode). */
  function FrameOf<M>(ser: LineJson<M>, m: M): seq<byte> {
    match ser.encode(m)
    case Ok(e) => Frame(e)
    case Err(_) => []
  }

  /** The frames of a sequence of messages, back to back. */
  function Frames<M>(ser: LineJson<M>, ms: seq<M>): seq<byte>
    decreases |ms|
  {
    if ms == [] then [] else FrameOf(ser, ms[0]) + Frames(ser, ms[1..])
  }

  lemma {:induction false} FramesConcat<M>(ser: LineJson<M>, ms: seq<M>, ns: seq<M>)
    ensures Frames(ser, ms + ns) == Frames(ser, ms) + Frames(ser, ns)
    decreases |ms|
  {
    if ms == [] {
      assert ms + ns == ns;
    } else {
      assert (ms + ns)[0] == ms[0] && (ms + ns)[1..] == ms[1..] + ns;
      FramesConcat(ser, ms[1..], ns);
    }
  }

  /** The frames before message `i`, the frame of message `i`, and the frames after it. */
  lemma FramesAround<M>(ser: LineJson<M>, ms: seq<M>, i: nat)
    requires i < |ms|
    ensures Frames(ser, ms[..i + 1]) == Frames(ser, ms[..i]) + FrameOf(ser, ms[i])
    ensures Frames(ser, ms) == Frames(ser, ms[..i + 1]) + Frames(ser, ms[i + 1..])
  {
    assert ms[..i + 1] == ms[..i] + [ms[i]];
    FramesConcat(ser, ms[..i], [ms[i]]);
    assert Frames(ser, [ms[i]]) == FrameOf(ser, ms[i]) + Frames(ser, []);
    assert ms == ms[..i + 1] + ms[i + 1..];
    FramesConcat(ser, ms[..i + 1], ms[i + 1..]);
  }

  /** Successive `write` calls, stopping at the first error as a caller using `?` does. */
  function WriteEach<M>(ser: LineJson<M>, st: StreamState, ms: seq<M>): (r: Effect<Result<(), Error>, StreamState>)
    requires st.Valid()
    ensures r.after.Valid()
    decreases |ms|
  {
    if ms == [] then Effect(Ok(()), st)
    else
      var w := WriteSpec(ser, st, ms[0]);
      if w.value.Err? then w else WriteEach(ser, w.after, ms[1..])
  }

  /** The stream an unbounded `st` becomes once the frames of `ms` are written and flushed. */
  function Appended<M>(ser: LineJson<M>, st: StreamState, ms: seq<M>): StreamState {
    st.(data := st.data + Frames(ser, ms), flushed := if ms == [] then st.flushed else |st.data| + |Frames(ser, ms)|)
  }

  /** Writing to an unbounded stream appends the frames of every message, in order, and
      flushes them all. */
  lemma {:induction false} WriteEachAppendsFrames<M>(ser: LineJson<M>, st: StreamState, ms: seq<M>)
    requires st.Valid() && st.capacity == Unbounded
    requires forall i | 0 <= i < |ms| :: ser.encode(ms[i]).Ok?
    ensures WriteEach(ser, st, ms) == Effect(Ok(()), Appended(ser, st, ms))
    decreases |ms|
  {
    if ms != [] {
      var f := FrameOf(ser, ms[0]);
      var st1 := st.(data := st.data + f, flushed := |st.data| + |f|);
      WriteUnbounded(ser, st, ms[0], st1);
      assert forall i | 0 <= i < |ms[1..]| :: ms[1..][i] == ms[i + 1];
      WriteEachAppendsFrames(ser, st1, ms[1..]);
      AppendedStep(ser, st, ms, st1);
    } else {
      assert st.data + Frames(ser, ms) == st.data;
    }
  }

  /** One `write` to an unbounded stream appends the message's frame and flushes it. */
  lemma WriteUnbounded<M>(ser: LineJson<M>, st: StreamState, m: M, st1: StreamState)
    requires st.Valid() && st.capacity == Unbounded && ser.encode(m).Ok?
    requires st1 == st.(data := st.data + FrameOf(ser, m), flushed := |st.data| + |FrameOf(ser, m)|)
    ensures WriteSpec(ser, st, m) == Effect(Ok(()), st1)
  {
    WriteAppendsFrame(ser, st, m);
    var f := FrameOf(ser, m);
    assert f[..|f|] == f;
  }

  /** Appending the first frame, then the rest, is appending them all. */
  lemma AppendedStep<M>(ser: LineJson<M>, st: StreamState, ms: seq<M>, st1: StreamState)
    requires ms != []
    requires st1 == st.(data := st.data + FrameOf(ser, ms[0]), flushed := |st.data| + |FrameOf(ser, ms[0])|)
    ensures Appended(ser, st1, ms[1..]) == Appended(ser, st, ms)
  {
    assert Frames(ser, ms) == FrameOf(ser, ms[0]) + Frames(ser, ms[1..]);
    assert st1.data + Frames(ser, ms[1..]) == st.data + Frames(ser, ms);
    if ms[1..] == [] {
      assert Frames(ser, ms[1..]) == [];
    }
  }

  /** Reading back-to-back frames laid down from index `p`: the read that starts where the
      frames of the first `i` messages end returns message `i` and stops where its frame ends. */
  lemma {:induction false} ReadsInOrder<M>(ser: LineJson<M>, st: StreamState, p: nat, ms: seq<M>, i: nat, from: nat, to: nat)
    requires st.Valid() && i < |ms| && RoundTrips(ser, ms[i])
    requires StartsAt(st.data, p, Frames(ser, ms))
    requires from == p + |Frames(ser, ms[..i])| && to == p + |Frames(ser, ms[..i + 1])|
    ensures from < to <= |st.data|
    ensures ReadSpec(ser, st.(pos := from)) == Returns(Ok(ms[i]), st.(pos := to))
  {
    FrameInside(ser, st.data, p, ms, i);
    LineDecodes(ser, st.(pos := from), ser.encode(ms[i]).value, ms[i], st.(pos := to));
  }

  /** Where the frame of message `i` lies among back-to-back frames. */
  lemma FrameInside<M>(ser: LineJson<M>, data: seq<byte>, p: nat, ms: seq<M>, i: nat)
    requires i < |ms| && RoundTrips(ser, ms[i])
    requires StartsAt(data, p, Frames(ser, ms))
    ensures p + |Frames(ser, ms[..i])| + |Frame(ser.encode(ms[i]).value)| == p + |Frames(ser, ms[..i + 1])| <= |data|
    ensures StartsAt(data, p + |Frames(ser, ms[..i])|, Frame(ser.encode(ms[i]).value))
  {
    var before := Frames(ser, ms[..i]);
    var f := FrameOf(ser, ms[i]);
    FramesAround(ser, ms, i);
    StartsAtConcat(data, p, before + f, Frames(ser, ms[i + 1..]));
    StartsAtConcat(data, p, before, f);
    StartsAtBound(data, p, before + f);
  }

  /** FIFO order on one unbounded stream: after writing `ms`, the read that starts where
      the frames of the first `i` messages end (`from`) returns message `i` and stops where
      the frame of message `i` ends (`to`), which is where the read of message `i + 1` starts. */
  lemma {:induction false} WriteEachThenReadEach<M>(ser: LineJson<M>, st: StreamState, ms: seq<M>, i: nat, w: StreamState, from: nat, to: nat)
    requires st.Valid() && st.capacity == Unbounded
    requires AllRoundTrip(ser, ms) && i < |ms|
    requires w == WriteEach(ser, st, ms).after
    requires from == |st.data| + |Frames(ser, ms[..i])| && to == |st.data| + |Frames(ser, ms[..i + 1])|
    ensures WriteEach(ser, st, ms).value.Ok?
    ensures w.Valid() && |w.data| == |st.data| + |Frames(ser, ms)|
    ensures from < to <= |w.data|
    ensures ReadSpec(ser, w.(pos := from)) == Returns(Ok(ms[i]), w.(pos := to))
  {
    WriteEachAppendsFrames(ser, st, ms);
    ReadsBackAppended(ser, st, ms, i, w, from, to);
  }

  /** The read of message `i` from the stream `Appended` describes. */
  lemma {:induction false} ReadsBackAppended<M>(ser: LineJson<M>, st: StreamState, ms: seq<M>, i: nat, w: StreamState, from: nat, to: nat)
    requires st.Valid() && st.capacity == Unbounded
    requires AllRoundTrip(ser, ms) && i < |ms|
    requires w == Appended(ser, st, ms)
    requires from == |st.data| + |Frames(ser, ms[..i])| && to == |st.data| + |Frames(ser, ms[..i + 1])|
    ensures w.Valid() && from < to <= |w.data|
    ensures ReadSpec(ser, w.(pos := from)) == Returns(Ok(ms[i]), w.(pos := to))
  {
    StartsAtEnd(st.data, Frames(ser, ms));
    assert RoundTrips(ser, ms[i]);
    ReadsInOrder(ser, w, |st.data|, ms, i, from, to);
  }
}
