/** In-memory byte streams standing in for the readers and writers the channels own.
    A stream holds every byte put into it; reads take bytes from the cursor `pos`,
    writes append at the end, and `flushed` counts the bytes handed to the transport.
    One stream read by one party and written by another is a pipe; one stream that a
    single owner both reads and writes is a loopback buffer, whose reads return what
    the same owner wrote (unlike a socket, whose two directions are independent).
    A stream of bounded capacity behaves like a fixed-size `&mut [u8]` writer. */
module Streams {
  import opened Results
  import opened Wire

  /** The `std::io::Error` kinds that in-memory streams can produce. */
  datatype IoError =
    | InvalidData   // `read_line` found bytes that are not UTF-8
    | WriteZero     // `write_all` could not place every byte

  datatype Capacity = Unbounded | Bounded(limit: nat)

  predicate Fits(c: Capacity, n: nat) {
    c.Bounded? ==> n <= c.limit
  }

  /** How many of `want` more bytes fit after `used` bytes. */
  function Room(c: Capacity, used: nat, want: nat): (n: nat)
    requires Fits(c, used)
    ensures n <= want && Fits(c, used + n)
    ensures n < want <==> !Fits(c, used + want)
  {
    match c
    case Unbounded => want
    case Bounded(limit) => if used + want <= limit then want else limit - used
  }

  /** The value of a stream. */
  datatype StreamState = StreamState(data: seq<byte>, pos: nat, flushed: nat, capacity: Capacity) {
    ghost predicate Valid() {
      pos <= |data| && flushed <= |data| && Fits(capacity, |data|)
    }

    /** The bytes not read yet. */
    function Unread(): seq<byte>
      requires pos <= |data|
    {
      data[pos..]
    }
  }

  /** `BufRead::read_line` on an in-memory stream. */
  function ReadLineSpec(st: StreamState): (r: Effect<Result<seq<byte>, IoError>, StreamState>)
    requires st.Valid()
    ensures r.after.Valid()
  {
    var end := LineEnd(st.data, st.pos);
    var line := st.data[st.pos..end];
    Effect(if ValidUtf8(line) then Ok(line) else Err(InvalidData), st.(pos := end))
  }

  /** `Write::write_all` on an in-memory stream. */
  function WriteAllSpec(st: StreamState, bytes: seq<byte>): (r: Effect<Result<(), IoError>, StreamState>)
    requires st.Valid()
    ensures r.after.Valid()
  {
    var n := Room(st.capacity, |st.data|, |bytes|);
    Effect(if n == |bytes| then Ok(()) else Err(WriteZero), st.(data := st.data + bytes[..n]))
  }

  /** `Write::flush`: every byte written so far is handed to the transport. */
  function FlushSpec(st: StreamState): (r: StreamState)
    requires st.Valid()
    ensures r.Valid()
  {
    st.(flushed := |st.data|)
  }

  lemma ReadLineConsumesLine(st: StreamState)
    requires st.Valid()
    ensures var r := ReadLineSpec(st);
      r.after.data == st.data && r.after.flushed == st.flushed &&
      r.after.pos == LineEnd(st.data, st.pos) &&
      (r.value.Ok? ==> st.data[st.pos..r.after.pos] == r.value.value) &&
      (st.pos == |st.data| ==> r == Effect(Ok([]), st))
  {
  }

  /** `write_all` places a prefix of the bytes, all of them exactly when it succeeds. */
  lemma WriteAllAppendsPrefix(st: StreamState, bytes: seq<byte>)
    requires st.Valid()
    ensures var r := WriteAllSpec(st, bytes);
      r.after.pos == st.pos && r.after.flushed == st.flushed &&
      |st.data| <= |r.after.data| <= |st.data| + |bytes| &&
      r.after.data == st.data + bytes[..|r.after.data| - |st.data|] &&
      (r.value.Ok? <==> |r.after.data| == |st.data| + |bytes|) &&
      (r.value.Ok? <==> Fits(st.capacity, |st.data| + |bytes|))
  {
  }

  class Stream {
    var data: seq<byte>
    var pos: nat
    var flushed: nat
    const capacity: Capacity

    function State(): StreamState
      reads this
    {
      StreamState(data, pos, flushed, capacity)
    }

    ghost predicate Valid()
      reads this
    {
      State().Valid()
    }

    /** A stream holding `contents`, nothing read yet. */
    constructor (contents: seq<byte>, capacity: Capacity)
      requires Fits(capacity, |contents|)
      ensures Valid()
      ensures State() == StreamState(contents, 0, |contents|, capacity)
    {
      data := contents;
      pos := 0;
      flushed := |contents|;
      this.capacity := capacity;
    }

    /** Reads bytes up to and including the next newline, or to the end of the data. */
    method ReadLine() returns (r: Result<seq<byte>, IoError>)
      requires Valid()
      modifies this
      ensures Valid()
      ensures Effect(r, State()) == ReadLineSpec(old(State()))
    {
      var buf: seq<byte> := [];
      var start := pos;
      var done := false;
      while !done && pos < |data|
        invariant start <= pos <= |data|
        invariant buf == data[start..pos]
        invariant LineEnd(data, start) == if done then pos else LineEnd(data, pos)
        invariant data == old(data) && flushed == old(flushed) && start == old(pos)
        decreases |data| - pos, !done
      {
        var b := data[pos];
        buf := buf + [b];
        pos := pos + 1;
        done := b == NEWLINE;
      }
      if ValidUtf8(buf) {
        r := Ok(buf);
      } else {
        r := Err(InvalidData);
      }
    }

    /** Appends as many of `bytes` as fit, failing with `WriteZero` if some do not. */
    method WriteAll(bytes: seq<byte>) returns (r: Result<(), IoError>)
      requires Valid()
      modifies this
      ensures Valid()
      ensures Effect(r, State()) == WriteAllSpec(old(State()), bytes)
    {
      var i := 0;
      while i < |bytes|
        invariant i <= |bytes|
        invariant Valid()
        invariant data == old(data) + bytes[..i]
        invariant i <= Room(capacity, |old(data)|, |bytes|)
        invariant pos == old(pos) && flushed == old(flushed)
      {
        if !Fits(capacity, |data| + 1) {
          return Err(WriteZero);
        }
        data := data + [bytes[i]];
        i := i + 1;
      }
      r := Ok(());
    }

    method Flush()
      requires Valid()
      modifies this
      ensures Valid()
      ensures State() == FlushSpec(old(State()))
    {
      flushed := |data|;
    }
  }
}
