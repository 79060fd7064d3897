/** Byte-level facts that line framing rests on: ASCII whitespace and trimming as
    Rust's `u8::is_ascii_whitespace` and `str::trim_ascii` define them, line
    boundaries as `BufRead::read_line` finds them, and well-formed UTF-8 as
    `str::from_utf8` accepts it. */
module Wire {

  type byte = b: int | 0 <= b < 0x100

  const NEWLINE: byte := 0x0A

  /** Space, tab, line feed, form feed and carriage return; vertical tab is not ASCII whitespace in Rust. */
  predicate IsAsciiWhitespace(b: byte) {
    b == 0x20 || b == 0x09 || b == 0x0A || b == 0x0C || b == 0x0D
  }

  /** Every byte is ASCII whitespace (the empty sequence is blank). */
  predicate Blank(s: seq<byte>) {
    forall k | 0 <= k < |s| :: IsAsciiWhitespace(s[k])
  }

  /** Neither end is ASCII whitespace. */
  predicate Trimmed(s: seq<byte>) {
    s != [] ==> !IsAsciiWhitespace(s[0]) && !IsAsciiWhitespace(s[|s| - 1])
  }

  /** Index of the first byte at or after `i` that is not ASCII whitespace (or `|s|`). */
  function SkipLeading(s: seq<byte>, i: nat): (r: nat)
    requires i <= |s|
    ensures i <= r <= |s|
    decreases |s| - i
  {
    if i < |s| && IsAsciiWhitespace(s[i]) then SkipLeading(s, i + 1) else i
  }

  /** Index just past the last byte in `s[lo..j]` that is not ASCII whitespace (or `lo`). */
  function SkipTrailing(s: seq<byte>, lo: nat, j: nat): (r: nat)
    requires lo <= j <= |s|
    ensures lo <= r <= j
    decreases j
  {
    if lo < j && IsAsciiWhitespace(s[j - 1]) then SkipTrailing(s, lo, j - 1) else j
  }

  /** `trim_ascii`: strips ASCII whitespace from both ends. */
  function TrimAscii(s: seq<byte>): seq<byte> {
    var i := SkipLeading(s, 0);
    var j := SkipTrailing(s, i, |s|);
    s[i..j]
  }

  lemma {:induction false} SkipLeadingSkips(s: seq<byte>, i: nat)
    requires i <= |s|
    ensures var r := SkipLeading(s, i);
      (forall k | i <= k < r :: IsAsciiWhitespace(s[k])) && (r < |s| ==> !IsAsciiWhitespace(s[r]))
    decreases |s| - i
  {
    if i < |s| && IsAsciiWhitespace(s[i]) {
      SkipLeadingSkips(s, i + 1);
    }
  }

  lemma {:induction false} SkipTrailingSkips(s: seq<byte>, lo: nat, j: nat)
    requires lo <= j <= |s|
    ensures var r := SkipTrailing(s, lo, j);
      (forall k | r <= k < j :: IsAsciiWhitespace(s[k])) && (r > lo ==> !IsAsciiWhitespace(s[r - 1]))
    decreases j
  {
    if lo < j && IsAsciiWhitespace(s[j - 1]) {
      SkipTrailingSkips(s, lo, j - 1);
    }
  }

  /** The trimmed bytes have no whitespace at either end, and are empty exactly when everything was whitespace. */
  lemma TrimAsciiTrims(s: seq<byte>)
    ensures Trimmed(TrimAscii(s))
    ensures TrimAscii(s) == [] <==> Blank(s)
  {
    var i := SkipLeading(s, 0);
    SkipLeadingSkips(s, 0);
    SkipTrailingSkips(s, i, |s|);
  }

  lemma {:induction false} SkipLeadingOver(s: seq<byte>, i: nat, n: nat)
    requires i <= n <= |s|
    requires forall k | i <= k < n :: IsAsciiWhitespace(s[k])
    requires n < |s| ==> !IsAsciiWhitespace(s[n])
    ensures SkipLeading(s, i) == n
    decreases n - i
  {
    if i < n {
      SkipLeadingOver(s, i + 1, n);
    }
  }

  lemma {:induction false} SkipTrailingOver(s: seq<byte>, lo: nat, n: nat, j: nat)
    requires lo <= n <= j <= |s|
    requires forall k | n <= k < j :: IsAsciiWhitespace(s[k])
    requires n > lo ==> !IsAsciiWhitespace(s[n - 1])
    ensures SkipTrailing(s, lo, j) == n
    decreases j - n
  {
    if n < j {
      SkipTrailingOver(s, lo, n, j - 1);
    }
  }

  /** Trimming recovers exactly a trimmed core from any whitespace padding around it. */
  lemma TrimAsciiPadded(a: seq<byte>, t: seq<byte>, b: seq<byte>)
    requires Blank(a) && Blank(b) && Trimmed(t) && t != []
    ensures TrimAscii(a + t + b) == t
  {
    var s := a + t + b;
    var i, j := |a|, |a| + |t|;
    assert forall k | 0 <= k < i :: s[k] == a[k];
    assert forall k | j <= k < |s| :: s[k] == b[k - j];
    assert s[i] == t[0] && s[j - 1] == t[|t| - 1];
    SkipLeadingOver(s, 0, i);
    SkipTrailingOver(s, i, j, |s|);
    assert s[i..j] == t;
  }

  lemma BlankSplit(a: seq<byte>, b: seq<byte>)
    ensures Blank(a + b) <==> Blank(a) && Blank(b)
  {
    if Blank(a + b) {
      forall k | 0 <= k < |a| ensures IsAsciiWhitespace(a[k]) {
        assert a[k] == (a + b)[k];
      }
      forall k | 0 <= k < |b| ensures IsAsciiWhitespace(b[k]) {
        assert b[k] == (a + b)[|a| + k];
      }
    }
    if Blank(a) && Blank(b) {
      forall k | 0 <= k < |a + b| ensures IsAsciiWhitespace((a + b)[k]) {
        if k < |a| { assert (a + b)[k] == a[k]; } else { assert (a + b)[k] == b[k - |a|]; }
      }
    }
  }

  /** `t` occurs in `data` starting at index `p`. */
  predicate StartsAt(data: seq<byte>, p: nat, t: seq<byte>)
    decreases |t|
  {
    p <= |data| && (t == [] || (p < |data| && data[p] == t[0] && StartsAt(data, p + 1, t[1..])))
  }

  lemma {:induction false} StartsAtSlice(data: seq<byte>, p: nat, t: seq<byte>)
    ensures StartsAt(data, p, t) <==> p + |t| <= |data| && data[p..p + |t|] == t
    decreases |t|
  {
    if t != [] && p < |data| {
      StartsAtSlice(data, p + 1, t[1..]);
      if p + |t| <= |data| && data[p..p + |t|] == t {
        assert data[p + 1..p + |t|] == t[1..];
      }
      if data[p] == t[0] && p + 1 + |t[1..]| <= |data| && data[p + 1..p + 1 + |t[1..]|] == t[1..] {
        assert data[p..p + |t|] == [t[0]] + t[1..];
      }
    }
  }

  lemma {:induction false} StartsAtBound(data: seq<byte>, p: nat, t: seq<byte>)
    requires StartsAt(data, p, t)
    ensures p + |t| <= |data|
    decreases |t|
  {
    if t != [] {
      StartsAtBound(data, p + 1, t[1..]);
    }
  }

  /** Whatever is appended occurs where it was appended. */
  lemma StartsAtEnd(s: seq<byte>, t: seq<byte>)
    ensures StartsAt(s + t, |s|, t)
  {
    assert (s + t)[|s|..|s| + |t|] == t;
    StartsAtSlice(s + t, |s|, t);
  }

  lemma {:induction false} StartsAtConcat(data: seq<byte>, p: nat, t: seq<byte>, u: seq<byte>)
    ensures StartsAt(data, p, t + u) <==> StartsAt(data, p, t) && StartsAt(data, p + |t|, u)
    decreases |t|
  {
    if t == [] {
      assert t + u == u;
    } else {
      assert (t + u)[0] == t[0] && (t + u)[1..] == t[1..] + u;
      StartsAtConcat(data, p + 1, t[1..], u);
    }
  }

  /** Two pieces that occur back to back occur one after the other. */
  lemma SliceSplit(data: seq<byte>, p: nat, f: seq<byte>, rest: seq<byte>)
    requires p + |f| + |rest| <= |data| && data[p..p + |f| + |rest|] == f + rest
    ensures data[p..p + |f|] == f
    ensures data[p + |f|..p + |f| + |rest|] == rest
  {
    assert data[p..p + |f|] == (f + rest)[..|f|];
    assert data[p + |f|..p + |f| + |rest|] == (f + rest)[|f|..];
  }

  /** The end of the line that starts at `from`: just past the next newline, or the end of the data. */
  function LineEnd(data: seq<byte>, from: nat): (end: nat)
    requires from <= |data|
    ensures from <= end <= |data|
    ensures from < |data| ==> from < end
    ensures end == |data| || data[end - 1] == NEWLINE
    decreases |data| - from
  {
    if from == |data| then from
    else if data[from] == NEWLINE then from + 1
    else LineEnd(data, from + 1)
  }

  /** A newline after a newline-free run ends the line that starts the run. */
  lemma {:induction false} LineEndAfterRun(data: seq<byte>, from: nat, nl: nat)
    requires from <= nl < |data| && data[nl] == NEWLINE
    requires forall k | from <= k < nl :: data[k] != NEWLINE
    ensures LineEnd(data, from) == nl + 1
    decreases nl - from
  {
    if from < nl {
      LineEndAfterRun(data, from + 1, nl);
    }
  }

  predicate IsContinuation(b: byte) {
    0x80 <= b <= 0xBF
  }

  /** Number of bytes of the well-formed UTF-8 code point that starts `s`, or 0 when `s`
      does not start with one (Unicode table 3-7: no overlong forms, no surrogates,
      nothing above U+10FFFF). */
  function Utf8Width(s: seq<byte>): (w: nat)
    ensures w <= |s| && w <= 4
    ensures |s| > 0 && s[0] < 0x80 ==> w == 1
  {
    if |s| == 0 then 0
    else if s[0] < 0x80 then 1
    else if 0xC2 <= s[0] <= 0xDF then
      if |s| >= 2 && IsContinuation(s[1]) then 2 else 0
    else if 0xE0 <= s[0] <= 0xEF then
      var lo := if s[0] == 0xE0 then 0xA0 else 0x80;
      var hi := if s[0] == 0xED then 0x9F else 0xBF;
      if |s| >= 3 && lo <= s[1] <= hi && IsContinuation(s[2]) then 3 else 0
    else if 0xF0 <= s[0] <= 0xF4 then
      var lo := if s[0] == 0xF0 then 0x90 else 0x80;
      var hi := if s[0] == 0xF4 then 0x8F else 0xBF;
      if |s| >= 4 && lo <= s[1] <= hi && IsContinuation(s[2]) && IsContinuation(s[3]) then 4 else 0
    else 0
  }

  /** `s` is a sequence of well-formed UTF-8 code points. */
  predicate ValidUtf8(s: seq<byte>)
    decreases |s|
  {
    s == [] || (Utf8Width(s) > 0 && ValidUtf8(s[Utf8Width(s)..]))
  }

  predicate IsAscii(s: seq<byte>) {
    forall k | 0 <= k < |s| :: s[k] < 0x80
  }

  lemma {:induction false} AsciiIsUtf8(s: seq<byte>)
    requires IsAscii(s)
    ensures ValidUtf8(s)
    decreases |s|
  {
    if s != [] {
      AsciiIsUtf8(s[1..]);
    }
  }

  /** Whitespace is ASCII, so blank bytes are valid UTF-8. */
  lemma BlankIsUtf8(s: seq<byte>)
    ensures Blank(s) ==> ValidUtf8(s)
  {
    if Blank(s) {
      AsciiIsUtf8(s);
    }
  }

  lemma Utf8WidthOfPrefix(a: seq<byte>, b: seq<byte>)
    requires Utf8Width(a) > 0
    ensures Utf8Width(a + b) == Utf8Width(a)
  {
    assert forall k | 0 <= k < |a| :: (a + b)[k] == a[k];
  }

  /** Concatenating well-formed UTF-8 text gives well-formed UTF-8 text. */
  lemma {:induction false} Utf8Concat(a: seq<byte>, b: seq<byte>)
    requires ValidUtf8(a) && ValidUtf8(b)
    ensures ValidUtf8(a + b)
    decreases |a|
  {
    if a == [] {
      assert a + b == b;
    } else {
      var w := Utf8Width(a);
      Utf8WidthOfPrefix(a, b);
      assert (a + b)[w..] == a[w..] + b;
      Utf8Concat(a[w..], b);
    }
  }
}
