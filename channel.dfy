/** The channel layer of src/channel.rs. Channels are values that own their streams
    (and, for the owned shapes, their serializer); `new`, `into_inner` and
    `transpose` restructure those values, and every read or write delegates to the
    serializer on the one stream it concerns. No channel operation makes or wraps an
    error: each result is the serializer's result. */
module Channel {
  import opened Results
  import opened Wire
  import opened Streams
  import opened Serializer

  /** `ReadChannel<R>`: a read-only channel; the serializer is supplied on each call. */
  datatype ReadChannel = ReadChannel(stream: Stream) {
    static function New(reader: Stream): (c: ReadChannel)
      ensures c.IntoInner() == reader
    {
      ReadChannel(reader)
    }

    function IntoInner(): (reader: Stream)
      ensures this == ReadChannel(reader)
    {
      stream
    }

    method TryRead<M>(ser: LineJson<M>) returns (r: Result<Option<M>, Error>)
      requires stream.Valid()
      modifies stream
      ensures stream.Valid()
      ensures Effect(r, stream.State()) == TryReadSpec(ser, old(stream.State()))
    {
      r := ser.TryRead(stream);
    }

    method Read<M>(ser: LineJson<M>) returns (r: Result<M, Error>)
      requires stream.Valid() && !Blank(stream.State().Unread())
      modifies stream
      ensures stream.Valid()
      ensures ReadSpec(ser, old(stream.State())) == Returns(r, stream.State())
    {
      r := ser.Read(stream);
    }
  }

  /** `WriteChannel<W>`: a write-only channel; the serializer is supplied on each call. */
  datatype WriteChannel = WriteChannel(stream: Stream) {
    static function New(writer: Stream): (c: WriteChannel)
      ensures c.IntoInner() == writer
    {
      WriteChannel(writer)
    }

    function IntoInner(): (writer: Stream)
      ensures this == WriteChannel(writer)
    {
      stream
    }

    method Write<M>(ser: LineJson<M>, message: M) returns (r: Result<(), Error>)
      requires stream.Valid()
      modifies stream
      ensures stream.Valid()
      ensures Effect(r, stream.State()) == WriteSpec(ser, old(stream.State()), message)
    {
      r := ser.Write(stream, message);
    }
  }

  /** `UniChannel<R, W, S>`: an owned channel over a reader and a separate writer. */
  datatype UniChannel<!M> = UniChannel(reader: ReadChannel, writer: WriteChannel, serializer: LineJson<M>) {
    /** The two streams are distinct objects, as two owned values are. */
    ghost predicate Valid()
      reads reader.stream, writer.stream
    {
      reader.stream != writer.stream && reader.stream.Valid() && writer.stream.Valid()
    }

    static function New(reader: Stream, writer: Stream, serializer: LineJson<M>): (c: UniChannel<M>)
      ensures c.IntoInner() == (reader, writer, serializer)
    {
      UniChannel(ReadChannel.New(reader), WriteChannel.New(writer), serializer)
    }

    function IntoInner(): (parts: (Stream, Stream, LineJson<M>))
      ensures this == UniChannel(ReadChannel(parts.0), WriteChannel(parts.1), parts.2)
    {
      (reader.IntoInner(), writer.IntoInner(), serializer)
    }

    /** The same parts with reader and writer exchanged. */
    function Transpose(): (t: UniChannel<M>)
      ensures t.IntoInner() == (IntoInner().1, IntoInner().0, IntoInner().2)
    {
      var (r, w, s) := IntoInner();
      New(w, r, s)
    }

    /** `reader()`: the reader the channel owns. */
    function Reader(): Stream {
      reader.stream
    }

    /** `writer()`: the writer the channel owns. */
    function Writer(): Stream {
      writer.stream
    }

    method TryRead() returns (r: Result<Option<M>, Error>)
      requires Valid()
      modifies Reader()
      ensures Valid() && unchanged(Writer())
      ensures Effect(r, Reader().State()) == TryReadSpec(serializer, old(Reader().State()))
    {
      r := reader.TryRead(serializer);
    }

    method Read() returns (r: Result<M, Error>)
      requires Valid() && !Blank(Reader().State().Unread())
      modifies Reader()
      ensures Valid() && unchanged(Writer())
      ensures ReadSpec(serializer, old(Reader().State())) == Returns(r, Reader().State())
    {
      r := reader.Read(serializer);
    }

    method Write(message: M) returns (r: Result<(), Error>)
      requires Valid()
      modifies Writer()
      ensures Valid() && unchanged(Reader())
      ensures Effect(r, Writer().State()) == WriteSpec(serializer, old(Writer().State()), message)
    {
      r := writer.Write(serializer, message);
    }
  }

  /** Transposing twice gives back the original channel. */
  lemma TransposeInvolutive<M>(c: UniChannel<M>)
    ensures c.Transpose().Transpose() == c
  {
  }

  /** Transposing keeps the channel well-formed: the streams stay distinct. */
  lemma TransposeValid<M>(c: UniChannel<M>)
    requires c.Valid()
    ensures c.Transpose().Valid()
  {
  }

  /** `BiChannel<T, S>`: an owned channel over one stream used in both directions. */
  datatype BiChannel<!M> = BiChannel(io: Stream, serializer: LineJson<M>) {
    static function New(io: Stream, serializer: LineJson<M>): (c: BiChannel<M>)
      ensures c.IntoInner() == (io, serializer)
    {
      BiChannel(io, serializer)
    }

    function IntoInner(): (parts: (Stream, LineJson<M>))
      ensures this == BiChannel(parts.0, parts.1)
    {
      (io, serializer)
    }

    /** `reader()`: the one stream the channel owns. */
    function Reader(): Stream {
      io
    }

    /** The writer is the reader: one stream. */
    function Writer(): (w: Stream)
      ensures w == Reader()
    {
      io
    }

    method TryRead() returns (r: Result<Option<M>, Error>)
      requires io.Valid()
      modifies io
      ensures io.Valid()
      ensures Effect(r, io.State()) == TryReadSpec(serializer, old(io.State()))
    {
      r := serializer.TryRead(io);
    }

    method Read() returns (r: Result<M, Error>)
      requires io.Valid() && !Blank(io.State().Unread())
      modifies io
      ensures io.Valid()
      ensures ReadSpec(serializer, old(io.State())) == Returns(r, io.State())
    {
      r := serializer.Read(io);
    }

    method Write(message: M) returns (r: Result<(), Error>)
      requires io.Valid()
      modifies io
      ensures io.Valid()
      ensures Effect(r, io.State()) == WriteSpec(serializer, old(io.State()), message)
    {
      r := serializer.Write(io, message);
    }
  }

  /** The value of an owned channel's streams: two separate ones, or one shared by both directions. */
  datatype ChannelState = Split(r: StreamState, w: StreamState) | Shared(io: StreamState) {
    ghost predicate Valid() {
      match this
      case Split(r, w) => r.Valid() && w.Valid()
      case Shared(io) => io.Valid()
    }

    function ReadSide(): StreamState {
      if Split? then r else io
    }

    function WriteSide(): StreamState {
      if Split? then w else io
    }

    /** Replacing the reader's state changes the writer's only when they are one stream. */
    function WithReadSide(s: StreamState): (c: ChannelState)
      ensures c.ReadSide() == s
      ensures c.WriteSide() == if Shared? then s else WriteSide()
      ensures c.Split? == Split?
    {
      if Split? then Split(s, w) else Shared(s)
    }

    /** Replacing the writer's state changes the reader's only when they are one stream. */
    function WithWriteSide(s: StreamState): (c: ChannelState)
      ensures c.WriteSide() == s
      ensures c.ReadSide() == if Shared? then s else ReadSide()
      ensures c.Split? == Split?
    {
      if Split? then Split(r, s) else Shared(s)
    }
  }

  /** The `OwnedChannel` implementations the model knows. */
  datatype OwnedChannel<!M> = Uni(uni: UniChannel<M>) | Bi(bi: BiChannel<M>) {
    /** The stream `reader()` lends out: the separate reader, or the one shared stream. */
    function Reader(): Stream {
      if Uni? then uni.Reader() else bi.Reader()
    }

    /** The stream `writer()` lends out: the separate writer, or the same shared stream. */
    function Writer(): Stream {
      if Uni? then uni.Writer() else bi.Writer()
    }

    /** `serializer()`: the serializer the channel owns. */
    function GetSerializer(): LineJson<M> {
      if Uni? then uni.serializer else bi.serializer
    }

    ghost predicate Valid()
      reads Reader(), Writer()
    {
      if Uni? then uni.Valid() else bi.io.Valid()
    }

    function State(): (cs: ChannelState)
      reads Reader(), Writer()
      ensures cs.ReadSide() == Reader().State() && cs.WriteSide() == Writer().State()
    {
      if Uni? then Split(uni.Reader().State(), uni.Writer().State()) else Shared(bi.io.State())
    }

    method TryRead() returns (r: Result<Option<M>, Error>)
      requires Valid()
      modifies Reader()
      ensures Valid()
      ensures var step := TryReadSpec(GetSerializer(), old(State()).ReadSide());
        r == step.value && State() == old(State()).WithReadSide(step.after)
    {
      match this
      case Uni(u) => r := u.TryRead();
      case Bi(b) => r := b.TryRead();
    }

    method Read() returns (r: Result<M, Error>)
      requires Valid() && !Blank(State().ReadSide().Unread())
      modifies Reader()
      ensures Valid()
      ensures var rd := ReadSpec(GetSerializer(), old(State()).ReadSide());
        rd.Returns? && r == rd.result && State() == old(State()).WithReadSide(rd.after)
    {
      match this
      case Uni(u) => r := u.Read();
      case Bi(b) => r := b.Read();
    }

    method Write(message: M) returns (r: Result<(), Error>)
      requires Valid()
      modifies Writer()
      ensures Valid()
      ensures var w := WriteSpec(GetSerializer(), old(State()).WriteSide(), message);
        r == w.value && State() == old(State()).WithWriteSide(w.after)
    {
      match this
      case Uni(u) => r := u.Write(message);
      case Bi(b) => r := b.Write(message);
    }
  }

  /** A `UniChannel` lends out the reader, the writer and the serializer it owns. */
  lemma UniChannelParts<M>(c: OwnedChannel<M>)
    requires c.Uni?
    ensures (c.Reader(), c.Writer(), c.GetSerializer()) == c.uni.IntoInner()
  {
  }

  /** A `BiChannel` lends out its one stream as both reader and writer, and the serializer it owns. */
  lemma BiChannelParts<M>(c: OwnedChannel<M>)
    requires c.Bi?
    ensures (c.Reader(), c.GetSerializer()) == c.bi.IntoInner()
    ensures c.Writer() == c.Reader()
  {
  }

  /** On one shared in-memory (loopback) stream, a message written when nothing is left
      unread is what the next `try_read` and `read` give back, and they consume exactly its frame. */
  lemma SharedWriteThenRead<M>(ser: LineJson<M>, io: StreamState, m: M)
    requires io.Valid() && RoundTrips(ser, m) && io.pos == |io.data|
    requires WriteSpec(ser, io, m).value.Ok?
    ensures var cs := Shared(io).WithWriteSide(WriteSpec(ser, io, m).after);
      var rd := cs.ReadSide();
      TryReadSpec(ser, rd) == Effect(Ok(Some(m)), rd.(pos := |rd.data|)) &&
      ReadSpec(ser, rd) == Returns(Ok(m), rd.(pos := |rd.data|))
  {
    WriteThenRead(ser, io, m);
  }

  /** On two separate streams, a write leaves what the reader will read untouched. */
  lemma SplitWriteKeepsReader<M>(ser: LineJson<M>, r: StreamState, w: StreamState, m: M)
    requires r.Valid() && w.Valid()
    ensures var cs := Split(r, w).WithWriteSide(WriteSpec(ser, w, m).after);
      TryReadSpec(ser, cs.ReadSide()) == TryReadSpec(ser, r)
  {
  }
}
