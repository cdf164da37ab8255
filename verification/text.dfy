/** String helpers with JavaScript's semantics: `String.prototype.split`
    on a one-character separator, the array slot read by a destructuring
    pattern, and the byte/character view used by `Buffer.toString()`. */
module Text {
  import opened Wrappers

  type byte = x: int | 0 <= x < 256

  /** Puts the pieces back together with `sep` between neighbours
      (JavaScript's `Array.prototype.join(sep)`). */
  function Join(parts: seq<string>, sep: char): (s: string)
    requires |parts| >= 1
  {
    if |parts| == 1 then parts[0] else parts[0] + [sep] + Join(parts[1..], sep)
  }

  /** `s.split(sep)`: the maximal separator-free pieces of `s`, in order.
      There is always at least one piece; `"".split(sep)` is `[""]`. */
  function Split(s: string, sep: char): (parts: seq<string>)
    ensures |parts| >= 1
    ensures forall i :: 0 <= i < |parts| ==> sep !in parts[i]
    ensures Join(parts, sep) == s
    decreases |s|
  {
    if |s| == 0 then [[]]
    else
      var rest := Split(s[1..], sep);
      if s[0] == sep then
        assert s == [sep] + s[1..];
        [[]] + rest
      else
        var parts := [[s[0]] + rest[0]] + rest[1..];
        assert parts[1..] == rest[1..];
        assert |rest| > 1 ==> Join(rest, sep) == rest[0] + [sep] + Join(rest[1..], sep);
        assert s == [s[0]] + s[1..];
        parts
  }

  /** The element a destructuring pattern reads at position `i`:
      `undefined` past the end of the array. */
  function Piece(parts: seq<string>, i: nat): (r: Option<string>) {
    if i < |parts| then Some(parts[i]) else None
  }

  /** The first piece is a prefix of the input, and there is more than one
      piece exactly when the input contains the separator. */
  lemma SplitHead(s: string, sep: char)
    ensures Split(s, sep)[0] <= s
    ensures |Split(s, sep)| > 1 <==> sep in s
  {
    var parts := Split(s, sep);
    if |parts| == 1 {
      assert s == parts[0];
    } else {
      assert s == parts[0] + [sep] + Join(parts[1..], sep);
      assert s[|parts[0]|] == sep;
    }
  }

  /** When the separator occurs, it ends the first piece. The second piece
      starts right after it and runs up to the end of the input or up to
      the next separator. */
  lemma SplitSecond(s: string, sep: char)
    requires sep in s
    ensures var parts := Split(s, sep);
      |parts| > 1 && |parts[0]| < |s| && s[|parts[0]|] == sep &&
      parts[1] <= s[|parts[0]| + 1..] &&
      (|parts[0]| + 1 + |parts[1]| == |s| || s[|parts[0]| + 1 + |parts[1]|] == sep)
  {
    var parts := Split(s, sep);
    SplitHead(s, sep);
    var rest := Join(parts[1..], sep);
    assert s == parts[0] + [sep] + rest;
    assert s[|parts[0]| + 1..] == rest;
    if |parts| > 2 {
      assert parts[1..][1..] == parts[2..];
      assert rest == parts[1] + [sep] + Join(parts[2..], sep);
    }
  }

  /** A separator-free string is a single piece. */
  lemma {:induction false} SplitNoSeparator(a: string, sep: char)
    requires sep !in a
    ensures Split(a, sep) == [a]
    decreases |a|
  {
    if |a| > 0 {
      SplitNoSeparator(a[1..], sep);
      assert [a[0]] + a[1..] == a;
    }
  }

  /** Splitting after a separator-free head: the head is the first piece and
      the rest is split on its own. */
  lemma {:induction false} SplitAtFirst(a: string, b: string, sep: char)
    requires sep !in a
    ensures Split(a + [sep] + b, sep) == [a] + Split(b, sep)
    decreases |a|
  {
    var s := a + [sep] + b;
    if |a| == 0 {
      assert s[1..] == b;
    } else {
      assert s[1..] == a[1..] + [sep] + b;
      SplitAtFirst(a[1..], b, sep);
      assert [a[0]] + a[1..] == a;
    }
  }

  /** Split is the inverse of Join on separator-free pieces. */
  lemma {:induction false} SplitJoin(parts: seq<string>, sep: char)
    requires |parts| >= 1
    requires forall i :: 0 <= i < |parts| ==> sep !in parts[i]
    ensures Split(Join(parts, sep), sep) == parts
    decreases |parts|
  {
    if |parts| == 1 {
      SplitNoSeparator(parts[0], sep);
    } else {
      SplitJoin(parts[1..], sep);
      SplitAtFirst(parts[0], Join(parts[1..], sep), sep);
      assert [parts[0]] + parts[1..] == parts;
    }
  }

  predicate IsAscii(t: string) {
    forall i :: 0 <= i < |t| ==> t[i] as int < 128
  }

  lemma AsciiConcat(a: string, b: string)
    requires IsAscii(a) && IsAscii(b)
    ensures IsAscii(a + b)
  {
    forall i | 0 <= i < |a + b|
      ensures (a + b)[i] as int < 128
    {
      if i >= |a| {
        assert (a + b)[i] == b[i - |a|];
      }
    }
  }

  /** `Buffer.toString()` on bytes: each byte becomes the character with the
      same code. This is what UTF-8 decoding gives for ASCII bytes. */
  function BytesToText(b: seq<byte>): (t: string) {
    seq(|b|, i requires 0 <= i < |b| => b[i] as char)
  }

  /** The bytes of an ASCII string (its UTF-8 encoding). */
  function AsciiBytes(t: string): (b: seq<byte>)
    requires IsAscii(t)
    ensures BytesToText(b) == t
  {
    seq(|t|, i requires 0 <= i < |t| => t[i] as int)
  }
}
