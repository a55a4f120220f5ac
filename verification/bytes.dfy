/** Byte strings as the client sees them on the wire, and the handful of Python
    `bytes` operations the protocol code relies on: ASCII encoding and decoding,
    `strip(b'\r\n')`, `split(b':', 1)` (through the first index of a byte),
    `split()` on ASCII whitespace, and reading a byte stream line by line. */
module Bytes {
  import opened Wrappers

  newtype byte = x: int | 0 <= x < 256

  const Tab: byte := 9
  const LF: byte := 10
  const VT: byte := 11
  const FF: byte := 12
  const CR: byte := 13
  const Space: byte := 32
  const Colon: byte := 58
  const CRLF: seq<byte> := [CR, LF]

  /** The bytes Python's `bytes.split()` treats as whitespace. */
  predicate IsWhitespace(b: byte) {
    b == Space || b == Tab || b == LF || b == VT || b == FF || b == CR
  }

  predicate IsLineEnd(b: byte) {
    b == CR || b == LF
  }

  predicate IsAscii(s: string) {
    forall i :: 0 <= i < |s| ==> s[i] as int < 128
  }

  predicate IsAsciiBytes(b: seq<byte>) {
    forall i :: 0 <= i < |b| ==> b[i] < 128
  }

  predicate AllAscii(lines: seq<seq<byte>>) {
    forall i :: 0 <= i < |lines| ==> IsAsciiBytes(lines[i])
  }

  predicate NoLineEnd(b: seq<byte>) {
    forall i :: 0 <= i < |b| ==> !IsLineEnd(b[i])
  }

  lemma NoLineEndConcat(a: seq<byte>, b: seq<byte>)
    requires NoLineEnd(a) && NoLineEnd(b)
    ensures NoLineEnd(a + b)
  {
    forall i | 0 <= i < |a + b| ensures !IsLineEnd((a + b)[i]) {
      if i >= |a| {
        assert (a + b)[i] == b[i - |a|];
      }
    }
  }

  // ---------------------------------------------------------------------------
  // ASCII encoding (`str.encode('ascii')`) and decoding (`bytes.decode('ascii')`)

  function Encode(s: string): (b: seq<byte>)
    requires IsAscii(s)
    ensures |b| == |s| && IsAsciiBytes(b)
  {
    seq(|s|, i requires 0 <= i < |s| => s[i] as int as byte)
  }

  function Decode(b: seq<byte>): (s: string)
    requires IsAsciiBytes(b)
    ensures |s| == |b| && IsAscii(s)
  {
    seq(|b|, i requires 0 <= i < |b| => b[i] as int as char)
  }

  lemma DecodeEncode(s: string)
    requires IsAscii(s)
    ensures Decode(Encode(s)) == s
  {
  }

  lemma EncodeDecode(b: seq<byte>)
    requires IsAsciiBytes(b)
    ensures Encode(Decode(b)) == b
  {
  }

  lemma EncodeConcat(s: string, t: string)
    requires IsAscii(s) && IsAscii(t)
    ensures IsAscii(s + t) && Encode(s + t) == Encode(s) + Encode(t)
  {
    assert IsAscii(s + t) by {
      forall i | 0 <= i < |s + t| ensures (s + t)[i] as int < 128 {
        if i >= |s| { assert (s + t)[i] == t[i - |s|]; }
      }
    }
  }

  // ---------------------------------------------------------------------------
  // `bytes.strip(b'\r\n')`

  /** `r` is what is left of `b` once every CR and LF at either end is removed:
      a run of line ends, then `r`, then a run of line ends, with `r` neither
      starting nor ending with one. */
  ghost predicate IsStripped(r: seq<byte>, b: seq<byte>) {
    && (r == [] || (!IsLineEnd(r[0]) && !IsLineEnd(r[|r| - 1])))
    && exists i :: 0 <= i && i + |r| <= |b|
         && b[i..][..|r|] == r
         && (forall k :: 0 <= k < i ==> IsLineEnd(b[k]))
         && (forall k :: i + |r| <= k < |b| ==> IsLineEnd(b[k]))
  }

  /** `strip(b'\r\n')`: removes CR and LF bytes from both ends. */
  function Strip(b: seq<byte>): (r: seq<byte>)
    ensures |r| <= |b|
    ensures IsAsciiBytes(b) ==> IsAsciiBytes(r)
    decreases |b|
  {
    if b != [] && IsLineEnd(b[0]) then Strip(b[1..])
    else if b != [] && IsLineEnd(b[|b| - 1]) then Strip(b[..|b| - 1])
    else b
  }

  lemma {:induction false} StripStrips(b: seq<byte>)
    ensures IsStripped(Strip(b), b)
    decreases |b|
  {
    if b != [] && IsLineEnd(b[0]) {
      StripStrips(b[1..]);
      StrippedAfterFirst(Strip(b), b);
    } else if b != [] && IsLineEnd(b[|b| - 1]) {
      StripStrips(b[..|b| - 1]);
      StrippedBeforeLast(Strip(b), b);
    } else {
      assert b[0..][..|b|] == b;
    }
  }

  lemma StrippedAfterFirst(r: seq<byte>, b: seq<byte>)
    requires b != [] && IsLineEnd(b[0]) && IsStripped(r, b[1..])
    ensures IsStripped(r, b)
  {
    var c := b[1..];
    var i :| 0 <= i && i + |r| <= |c| && c[i..][..|r|] == r
      && (forall k :: 0 <= k < i ==> IsLineEnd(c[k]))
      && (forall k :: i + |r| <= k < |c| ==> IsLineEnd(c[k]));
    assert b[i + 1..] == c[i..];
    forall k | 0 <= k < i + 1 ensures IsLineEnd(b[k]) {
      if k > 0 { assert b[k] == c[k - 1]; }
    }
    forall k | i + 1 + |r| <= k < |b| ensures IsLineEnd(b[k]) {
      assert b[k] == c[k - 1];
    }
  }

  lemma StrippedBeforeLast(r: seq<byte>, b: seq<byte>)
    requires b != [] && IsLineEnd(b[|b| - 1]) && IsStripped(r, b[..|b| - 1])
    ensures IsStripped(r, b)
  {
    var c := b[..|b| - 1];
    var i :| 0 <= i && i + |r| <= |c| && c[i..][..|r|] == r
      && (forall k :: 0 <= k < i ==> IsLineEnd(c[k]))
      && (forall k :: i + |r| <= k < |c| ==> IsLineEnd(c[k]));
    assert b[i..][..|r|] == c[i..][..|r|];
    forall k | 0 <= k < i ensures IsLineEnd(b[k]) {
      assert b[k] == c[k];
    }
    forall k | i + |r| <= k < |b| ensures IsLineEnd(b[k]) {
      if k < |c| { assert b[k] == c[k]; }
    }
  }

  /** A line the client frames with CR LF comes back unchanged from `strip`. */
  lemma StripFramed(b: seq<byte>)
    requires NoLineEnd(b)
    ensures Strip(b + CRLF) == b
  {
    var f := b + CRLF;
    if b == [] {
      assert f[1..] == [LF] && [LF][1..] == [];
    } else {
      assert f[..|f| - 1] == b + [CR];
      assert (b + [CR])[..|b|] == b;
      assert Strip(b) == b;
      assert Strip(b + [CR]) == b;
    }
  }

  // ---------------------------------------------------------------------------
  // First occurrence of a byte: the split point of `split(sep, 1)` and `partition(sep)`

  function FirstIndex(b: seq<byte>, x: byte): (r: Option<nat>)
    ensures r.Some? ==> r.value < |b| && b[r.value] == x && x !in b[..r.value]
    ensures r.None? ==> x !in b
  {
    if b == [] then None
    else if b[0] == x then Some(0)
    else match FirstIndex(b[1..], x)
      case None => None
      case Some(i) =>
        assert b[..i + 1] == [b[0]] + b[1..][..i];
        Some(i + 1)
  }

  /** `partition(sep)`: the bytes before the first `sep` and the bytes after it, or
      the whole input and nothing when `sep` does not occur. */
  function Partition(b: seq<byte>, sep: byte): (r: (seq<byte>, seq<byte>))
    ensures sep !in b ==> r == (b, [])
    ensures sep in b ==> b == r.0 + [sep] + r.1 && sep !in r.0
  {
    match FirstIndex(b, sep)
    case None => (b, [])
    case Some(i) =>
      assert b == b[..i] + [sep] + b[i + 1..];
      (b[..i], b[i + 1..])
  }

  /** The first `x` of `a + [x] + c`, when `a` holds none, is the one after `a`. */
  lemma FirstIndexAfter(a: seq<byte>, x: byte, c: seq<byte>)
    requires x !in a
    ensures FirstIndex(a + [x] + c, x) == Some(|a|)
  {
    var b := a + [x] + c;
    assert b[|a|] == x;
    assert forall j :: 0 <= j < |a| ==> b[j] == a[j];
    forall v | |a| < v <= |b| ensures x in b[..v] {
      assert b[..v][|a|] == x;
    }
  }

  // ---------------------------------------------------------------------------
  // `bytes.split()`: maximal runs of non-whitespace bytes

  predicate IsWord(t: seq<byte>) {
    t != [] && forall i :: 0 <= i < |t| ==> !IsWhitespace(t[i])
  }

  function Flatten(ts: seq<seq<byte>>): seq<byte> {
    if ts == [] then [] else ts[0] + Flatten(ts[1..])
  }

  function NonWhitespace(b: seq<byte>): seq<byte> {
    if b == [] then []
    else (if IsWhitespace(b[0]) then [] else [b[0]]) + NonWhitespace(b[1..])
  }

  function WordLength(b: seq<byte>): (n: nat)
    ensures n <= |b|
    ensures forall i :: 0 <= i < n ==> !IsWhitespace(b[i])
    ensures n == |b| || IsWhitespace(b[n])
  {
    if b == [] || IsWhitespace(b[0]) then 0 else 1 + WordLength(b[1..])
  }

  lemma {:induction false} NonWhitespaceOfWord(b: seq<byte>, n: nat)
    requires n <= |b|
    requires forall i :: 0 <= i < n ==> !IsWhitespace(b[i])
    ensures NonWhitespace(b) == b[..n] + NonWhitespace(b[n..])
  {
    if n > 0 {
      NonWhitespaceOfWord(b[1..], n - 1);
      assert b[1..][n - 1..] == b[n..];
      assert b[..n] == [b[0]] + b[1..][..n - 1];
    }
  }

  /** The whitespace-separated tokens of `b`: each is a non-empty run of
      non-whitespace bytes of `b`, and together, in order, they are exactly the
      non-whitespace bytes of `b`. */
  function Tokens(b: seq<byte>): (r: seq<seq<byte>>)
    ensures forall i :: 0 <= i < |r| ==> IsWord(r[i])
    ensures Flatten(r) == NonWhitespace(b)
    decreases |b|
  {
    if b == [] then []
    else if IsWhitespace(b[0]) then
      Tokens(b[1..])
    else
      var n := WordLength(b);
      var rest := Tokens(b[n..]);
      NonWhitespaceOfWord(b, n);
      assert ([b[..n]] + rest)[1..] == rest;
      [b[..n]] + rest
  }

  /** Every byte of a token is a byte of the input. */
  lemma {:induction false} TokenByteFromInput(b: seq<byte>, i: nat, x: byte)
    requires i < |Tokens(b)| && x in Tokens(b)[i]
    ensures x in b
    decreases |b|
  {
    if IsWhitespace(b[0]) {
      TokenByteFromInput(b[1..], i, x);
    } else {
      var n := WordLength(b);
      if i > 0 {
        TokenByteFromInput(b[n..], i - 1, x);
      }
    }
  }

  lemma TokensAscii(b: seq<byte>)
    requires IsAsciiBytes(b)
    ensures AllAscii(Tokens(b))
  {
    var r := Tokens(b);
    forall i, k | 0 <= i < |r| && 0 <= k < |r[i]| ensures r[i][k] < 128 {
      TokenByteFromInput(b, i, r[i][k]);
    }
  }

  lemma TokensExclude(b: seq<byte>, x: byte)
    requires x !in b
    ensures forall i :: 0 <= i < |Tokens(b)| ==> x !in Tokens(b)[i]
  {
    forall i | 0 <= i < |Tokens(b)| && x in Tokens(b)[i] ensures false {
      TokenByteFromInput(b, i, x);
    }
  }

  /** Each word followed by one space, the way a message head is laid out. */
  function SpaceTerminated(ts: seq<seq<byte>>): seq<byte> {
    if ts == [] then [] else ts[0] + [Space] + SpaceTerminated(ts[1..])
  }

  lemma {:induction false} TokensOfSpaceTerminated(ts: seq<seq<byte>>)
    requires forall i :: 0 <= i < |ts| ==> IsWord(ts[i])
    ensures Tokens(SpaceTerminated(ts)) == ts
    decreases |ts|
  {
    if ts != [] {
      var t := ts[0];
      var tail := [Space] + SpaceTerminated(ts[1..]);
      var b := t + tail;
      assert SpaceTerminated(ts) == b;
      assert b[0] == t[0];
      var n := WordLength(b);
      assert forall i :: 0 <= i < |t| ==> b[i] == t[i];
      assert IsWhitespace(b[|t|]);
      assert n == |t|;
      assert b[n..] == tail;
      assert tail[1..] == SpaceTerminated(ts[1..]);
      TokensOfSpaceTerminated(ts[1..]);
      assert b[..n] == t;
    }
  }

  /** A run of whitespace bytes, possibly empty. */
  predicate IsBlank(g: seq<byte>) {
    forall i :: 0 <= i < |g| ==> IsWhitespace(g[i])
  }

  /** Words laid out with gaps of whitespace: `gaps[0] + ts[0] + gaps[1] + ... +
      ts[n-1] + gaps[n]`. */
  function Layout(ts: seq<seq<byte>>, gaps: seq<seq<byte>>): seq<byte>
    requires |gaps| == |ts| + 1
  {
    gaps[0] + if ts == [] then [] else ts[0] + Layout(ts[1..], gaps[1..])
  }

  /** Gaps that can separate words: all whitespace, and non-empty between two
      words (the first and the last may be empty). */
  predicate Separating(ts: seq<seq<byte>>, gaps: seq<seq<byte>>) {
    && |gaps| == |ts| + 1
    && (forall j :: 0 <= j < |gaps| ==> IsBlank(gaps[j]))
    && (forall j :: 0 < j < |ts| ==> gaps[j] != [])
  }

  /** Leading whitespace does not change the tokens. */
  lemma {:induction false} TokensAfterBlank(g: seq<byte>, b: seq<byte>)
    requires IsBlank(g)
    ensures Tokens(g + b) == Tokens(b)
    decreases |g|
  {
    if g != [] {
      var s := g + b;
      assert s[0] == g[0] && IsWhitespace(s[0]);
      assert s[1..] == g[1..] + b;
      assert IsBlank(g[1..]);
      TokensAfterBlank(g[1..], b);
    } else {
      assert g + b == b;
    }
  }

  /** A word ended by whitespace or by the end of the input is one token. */
  lemma TokensOfWordThen(t: seq<byte>, b: seq<byte>)
    requires IsWord(t) && (b == [] || IsWhitespace(b[0]))
    ensures Tokens(t + b) == [t] + Tokens(b)
  {
    var s := t + b;
    assert s[0] == t[0];
    assert forall i :: 0 <= i < |t| ==> s[i] == t[i];
    if b != [] {
      assert s[|t|] == b[0];
    }
    var n := WordLength(s);
    assert n == |t|;
    assert s[..n] == t && s[n..] == b;
  }

  /** `split()` returns exactly the words of any layout of them, whatever
      whitespace separates them and surrounds them. */
  lemma {:induction false} TokensOfLayout(ts: seq<seq<byte>>, gaps: seq<seq<byte>>)
    requires forall i :: 0 <= i < |ts| ==> IsWord(ts[i])
    requires Separating(ts, gaps)
    ensures Tokens(Layout(ts, gaps)) == ts
    decreases |ts|
  {
    TokensAfterBlank(gaps[0], if ts == [] then [] else ts[0] + Layout(ts[1..], gaps[1..]));
    if ts == [] {
      assert Tokens([]) == [];
    } else {
      var rest := Layout(ts[1..], gaps[1..]);
      assert Separating(ts[1..], gaps[1..]);
      assert rest == gaps[1] + if ts[1..] == [] then [] else ts[1] + Layout(ts[2..], gaps[2..]);
      assert rest == [] || IsWhitespace(rest[0]) by {
        if rest != [] && gaps[1] == [] {
          assert |ts| == 1;
        }
      }
      TokensOfWordThen(ts[0], rest);
      TokensOfLayout(ts[1..], gaps[1..]);
    }
  }

  lemma LayoutWiden(x: seq<byte>, ts: seq<seq<byte>>, g: seq<seq<byte>>)
    requires |g| == |ts| + 1
    ensures Layout(ts, [x + g[0]] + g[1..]) == x + Layout(ts, g)
  {
    assert ([x + g[0]] + g[1..])[1..] == g[1..];
  }

  lemma LayoutWord(w: seq<byte>, ts: seq<seq<byte>>, g: seq<seq<byte>>)
    requires |g| == |ts| + 1
    ensures Layout([w] + ts, [[]] + g) == w + Layout(ts, g)
  {
    assert ([w] + ts)[1..] == ts;
    assert ([[]] + g)[1..] == g;
  }

  /** The whitespace around and between the tokens of `b`: with them, the
      tokens lay `b` out again, so every input is a layout of its tokens. */
  function Gaps(b: seq<byte>): (gaps: seq<seq<byte>>)
    ensures Separating(Tokens(b), gaps)
    ensures Layout(Tokens(b), gaps) == b
    ensures b != [] && IsWhitespace(b[0]) ==> gaps[0] != []
    decreases |b|
  {
    if b == [] then [[]]
    else if IsWhitespace(b[0]) then
      var g := Gaps(b[1..]);
      LayoutWiden([b[0]], Tokens(b[1..]), g);
      assert [b[0]] + b[1..] == b;
      [[b[0]] + g[0]] + g[1..]
    else
      var n := WordLength(b);
      var g := Gaps(b[n..]);
      LayoutWord(b[..n], Tokens(b[n..]), g);
      assert b[..n] + b[n..] == b;
      [[]] + g
  }

  // ---------------------------------------------------------------------------
  // Successive `readline()` results over a byte stream

  /** How a peer reading this stream with `readline()` splits it: each line runs up
      to and including an LF; a last piece without LF comes out as it is. */
  function ReadLines(b: seq<byte>): (r: seq<seq<byte>>)
    ensures Flatten(r) == b
    ensures forall i :: 0 <= i < |r| ==> r[i] != []
    ensures forall i :: 0 <= i < |r| - 1 ==> r[i][|r[i]| - 1] == LF
    ensures forall i :: 0 <= i < |r| ==> LF !in r[i][..|r[i]| - 1]
    decreases |b|
  {
    if b == [] then []
    else match FirstIndex(b, LF)
      case None => [b]
      case Some(i) =>
        var rest := ReadLines(b[i + 1..]);
        assert ([b[..i + 1]] + rest)[1..] == rest;
        assert b[..i + 1] + b[i + 1..] == b;
        assert b[..i + 1][..i] == b[..i];
        [b[..i + 1]] + rest
  }

  lemma ReadFramedLine(b: seq<byte>, rest: seq<byte>)
    requires NoLineEnd(b)
    ensures ReadLines(b + CRLF + rest) == [b + CRLF] + ReadLines(rest)
  {
    assert LF !in b + [CR];
    assert b + CRLF + rest == (b + [CR]) + [LF] + rest;
    FirstIndexAfter(b + [CR], LF, rest);
    var s := b + CRLF + rest;
    assert s[..|b| + 2] == b + CRLF;
    assert s[|b| + 2..] == rest;
  }
}
