/** The string handling the routing table code does by hand: Python's
    `str.split`, `int()` of decimal text, `str()` of a number and the
    zero-padded hex formatting `f'{n:0wx}'`. */
module Text {
  import opened AddrMath
  import opened Routes

  // ---------------------------------------------------------------------
  // `s.split(sep)`

  /** The index of the first `c` in `s`. */
  function IndexOf(s: string, c: char): (i: nat)
    requires c in s
    ensures i < |s| && s[i] == c && c !in s[..i]
    ensures forall k :: 0 <= k < i ==> s[k] != c
  {
    if s[0] == c then 0
    else
      assert c in s[1..] by { var k :| 0 <= k < |s| && s[k] == c; assert s[1..][k - 1] == c; }
      var j := IndexOf(s[1..], c);
      assert s[..j + 1] == [s[0]] + s[1..][..j];
      j + 1
  }

  /** `s.split(sep)`: the pieces between the separators, at least one. */
  function Split(s: string, sep: char): (parts: seq<string>)
    ensures |parts| >= 1
    decreases |s|
  {
    if sep !in s then [s]
    else
      var i := IndexOf(s, sep);
      [s[..i]] + Split(s[i + 1..], sep)
  }

  /** `sep.join(parts)`. */
  function Join(parts: seq<string>, sep: char): string
    requires |parts| >= 1
  {
    if |parts| == 1 then parts[0] else parts[0] + [sep] + Join(parts[1..], sep)
  }

  /** Splitting loses nothing: joining the pieces gives the text back, and
      no piece holds the separator. */
  lemma {:induction false} SplitJoin(s: string, sep: char)
    ensures Join(Split(s, sep), sep) == s
    ensures forall k :: 0 <= k < |Split(s, sep)| ==> sep !in Split(s, sep)[k]
    decreases |s|
  {
    if sep in s {
      var i := IndexOf(s, sep);
      SplitJoin(s[i + 1..], sep);
      assert s == s[..i] + [sep] + s[i + 1..];
    }
  }

  /** A text that starts with a separator-free piece and a separator
      splits into that piece followed by the pieces of the rest. */
  lemma SplitAt(a: string, b: string, sep: char)
    requires sep !in a
    ensures Split(a + [sep] + b, sep) == [a] + Split(b, sep)
  {
    var s := a + [sep] + b;
    assert s[|a|] == sep;
    assert forall k :: 0 <= k < |a| ==> s[k] == a[k] != sep;
    assert IndexOf(s, sep) == |a|;
    assert s[..|a|] == a && s[|a| + 1..] == b;
  }

  /** Joining pieces that hold no separator and splitting again gives the
      pieces back. */
  lemma {:induction false} JoinSplit(parts: seq<string>, sep: char)
    requires |parts| >= 1 && forall k :: 0 <= k < |parts| ==> sep !in parts[k]
    ensures Split(Join(parts, sep), sep) == parts
  {
    if |parts| == 1 {
      assert sep !in parts[0];
    } else {
      JoinSplit(parts[1..], sep);
      assert sep !in parts[0];
      SplitAt(parts[0], Join(parts[1..], sep), sep);
      assert parts == [parts[0]] + parts[1..];
    }
  }

  /** A text without the separator splits into itself alone; one with
      exactly one separator splits into the two sides of it. */
  lemma SplitOnce(a: string, b: string, sep: char)
    requires sep !in a && sep !in b
    ensures Split(a, sep) == [a]
    ensures Split(a + [sep] + b, sep) == [a, b]
  {
    SplitAt(a, b, sep);
  }

  // ---------------------------------------------------------------------
  // `int(s)` of decimal text and `str(n)`

  predicate IsDigit(c: char) { '0' <= c <= '9' }

  /** `int(s)` for text made of decimal digits; None for any other text
      (where Python raises ValueError). */
  function Decimal(s: string): (r: Option<nat>)
    ensures r.Some? <==> |s| > 0 && forall i :: 0 <= i < |s| ==> IsDigit(s[i])
  {
    if s == [] || !IsDigit(s[|s| - 1]) then None
    else
      var d := s[|s| - 1] as nat - '0' as nat;
      if |s| == 1 then Some(d)
      else
        match Decimal(s[..|s| - 1])
        case None => None
        case Some(v) => Some(v * 10 + d)
  }

  /** `str(n)`. */
  function DecimalText(n: nat): (s: string)
    ensures |s| > 0 && forall i :: 0 <= i < |s| ==> IsDigit(s[i])
  {
    var c := ('0' as nat + n % 10) as char;
    if n < 10 then [c] else DecimalText(n / 10) + [c]
  }

  /** `int(str(n)) == n`. */
  lemma {:induction false} DecimalRoundTrip(n: nat)
    ensures Decimal(DecimalText(n)) == Some(n)
  {
    var s := DecimalText(n);
    if n >= 10 {
      DecimalRoundTrip(n / 10);
      assert s[..|s| - 1] == DecimalText(n / 10);
    }
  }

  // ---------------------------------------------------------------------
  // `f'{n:0wx}'`

  /** The number of hex digits Python writes for `n` with no padding. */
  function HexDigits(n: nat): (k: nat)
    ensures k >= 1 && n < Pow16(k)
  {
    if n < 16 then 1 else 1 + HexDigits(n / 16)
  }

  /** `f'{n:0wx}'`: at least w lowercase hex digits, more when n needs them. */
  function Format(n: nat, w: nat): (s: string)
    ensures |s| >= w && |s| >= 1 && IsLowerHex(s) && ParseHex(s) == n
  {
    var k := if HexDigits(n) > w then HexDigits(n) else w;
    Pow16Monotone(HexDigits(n), k);
    HexRoundTrip(n, k);
    Hex(n, k)
  }

  lemma {:induction false} Pow16Monotone(a: nat, b: nat)
    requires a <= b
    ensures Pow16(a) <= Pow16(b)
  {
    if a < b { Pow16Monotone(a, b - 1); }
  }

  /** A value below 16^w is written in exactly w digits, and reads back. */
  lemma FormatFits(n: nat, w: nat)
    requires 1 <= w && n < Pow16(w)
    ensures Format(n, w) == Hex(n, w)
    ensures |Format(n, w)| == w && IsLowerHex(Format(n, w)) && ParseHex(Format(n, w)) == n
  {
    if HexDigits(n) > w {
      HexDigitsLeast(n, w);
    }
    HexRoundTrip(n, w);
  }

  lemma {:induction false} HexDigitsLeast(n: nat, w: nat)
    requires 1 <= w && n < Pow16(w)
    ensures HexDigits(n) <= w
  {
    if n >= 16 {
      assert Pow16(1) == 16;
      var p := Pow16(w - 1);
      assert n < 16 * p;
      assert n / 16 < p;
      HexDigitsLeast(n / 16, w - 1);
    }
  }
}
