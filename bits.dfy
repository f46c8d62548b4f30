/** Address arithmetic: families, bit paths, the `&` operator on unbounded
    integers, netmasks and fixed-width lowercase hexadecimal text. */
module AddrMath {

  datatype Family = V4 | V6

  /** Number of address bits of a family (max_bits in the trie). */
  function Width(f: Family): nat { if f == V4 then 32 else 128 }

  /** The `version` number the ipaddress objects report. */
  function Version(f: Family): nat { if f == V4 then 4 else 6 }

  function Pow2(n: nat): (r: nat)
    ensures r >= 1
  {
    if n == 0 then 1 else 2 * Pow2(n - 1)
  }

  lemma {:induction false} Pow2Add(a: nat, b: nat)
    ensures Pow2(a + b) == Pow2(a) * Pow2(b)
  {
    if b > 0 {
      Pow2Add(a, b - 1);
      assert Pow2(a + b) == 2 * Pow2(a + b - 1);
    }
  }

  lemma {:induction false} Pow2Monotone(a: nat, b: nat)
    requires a <= b
    ensures Pow2(a) <= Pow2(b)
  {
    if a < b { Pow2Monotone(a, b - 1); }
  }

  /** Division is determined by quotient and remainder. */
  lemma DivModUnique(a: int, d: int, q: int, r: int)
    requires d > 0 && 0 <= r < d && a == q * d + r
    ensures a / d == q && a % d == r
  {
    var q0, r0 := a / d, a % d;
    assert (q - q0) * d == r0 - r;
    if q > q0 {
      MulAtLeast(q - q0, d);
    } else if q < q0 {
      MulAtLeast(q0 - q, d);
    }
  }

  lemma MulAtLeast(x: int, d: int)
    requires x >= 1 && d > 0
    ensures x * d >= d
  {
  }

  lemma MulMonotone(x: int, y: int, c: int)
    requires x <= y && c >= 0
    ensures x * c <= y * c
  {
  }

  /** (a >> 1) >> k == a >> (k + 1) */
  lemma DivTwice(a: nat, k: nat)
    ensures Shr(a / 2, k) == Shr(a, k + 1)
  {
    var p := Pow2(k);
    var q := a / (2 * p);
    var r := a % (2 * p);
    assert Pow2(k + 1) == 2 * p;
    assert a == q * (2 * p) + r;
    DivModUnique(a, 2, q * p + r / 2, r % 2);
    DivModUnique(a / 2, p, q, r / 2);
  }

  /** `a >> k` */
  function Shr(a: nat, k: nat): nat {
    DivNat(a, Pow2(k));
    a / Pow2(k)
  }

  lemma DivNat(a: nat, d: nat)
    requires d >= 1
    ensures a / d >= 0
  {
  }

  /** Bit `pos` of `a` as the source computes it: `(a >> pos) & 1`. */
  function BitAt(a: nat, pos: nat): nat { Shr(a, pos) % 2 }

  /** The low `n` bits of `a`, most significant first: the path a prefix
      or an address takes from the root of the trie. */
  function Bits(a: nat, n: nat): (s: seq<bool>)
    ensures |s| == n
  {
    if n == 0 then [] else Bits(a / 2, n - 1) + [a % 2 == 1]
  }

  /** Element `i` of the path is the bit the trie loops read at bit_pos n-1-i. */
  lemma {:induction false} BitsIndex(a: nat, n: nat, i: nat)
    requires i < n
    ensures Bits(a, n)[i] == (BitAt(a, n - 1 - i) == 1)
  {
    if i < n - 1 {
      BitsIndex(a / 2, n - 1, i);
      DivTwice(a, n - 2 - i);
    }
  }

  /** Dropping the low k bits of a value keeps the first n-k path bits. */
  lemma {:induction false} BitsPrefix(a: nat, n: nat, k: nat)
    requires k <= n
    ensures Bits(a, n)[..n - k] == Bits(Shr(a, k), n - k)
  {
    if k > 0 {
      BitsPrefix(a / 2, n - 1, k - 1);
      DivTwice(a, k - 1);
      assert Bits(a, n)[..n - k] == Bits(a / 2, n - 1)[..n - k];
    }
  }

  lemma {:induction false} BitsInjective(a: nat, b: nat, n: nat)
    requires a < Pow2(n) && b < Pow2(n)
    requires Bits(a, n) == Bits(b, n)
    ensures a == b
  {
    if n > 0 {
      assert Bits(a, n)[..n - 1] == Bits(a / 2, n - 1);
      assert Bits(b, n)[..n - 1] == Bits(b / 2, n - 1);
      assert Bits(a, n)[n - 1] == Bits(b, n)[n - 1];
      BitsInjective(a / 2, b / 2, n - 1);
    }
  }

  lemma DivBound(a: nat, n: nat, k: nat)
    requires k <= n && a < Pow2(n)
    ensures Shr(a, k) < Pow2(n - k)
  {
    Pow2Add(n - k, k);
    var q := Shr(a, k);
    assert q * Pow2(k) <= a;
    if q >= Pow2(n - k) {
      MulMonotone(Pow2(n - k), q, Pow2(k));
    }
  }

  /** Two W-bit values agree on their first len path bits exactly when they
      agree after dropping the low W-len bits. */
  lemma SamePathIff(a: nat, b: nat, w: nat, len: nat)
    requires len <= w && a < Pow2(w) && b < Pow2(w)
    ensures Bits(a, w)[..len] == Bits(b, w)[..len] <==> Shr(a, w - len) == Shr(b, w - len)
  {
    var k := w - len;
    var qa, qb := Shr(a, k), Shr(b, k);
    BitsPrefix(a, w, k);
    BitsPrefix(b, w, k);
    assert Bits(a, w)[..len] == Bits(qa, len);
    assert Bits(b, w)[..len] == Bits(qb, len);
    if Bits(qa, len) == Bits(qb, len) {
      DivBound(a, w, k);
      DivBound(b, w, k);
      BitsInjective(qa, qb, len);
    }
  }

  /** Python's `a & b` on non-negative integers. */
  function And(a: nat, b: nat): (r: nat)
    decreases a
  {
    if a == 0 || b == 0 then 0
    else 2 * And(a / 2, b / 2) + (if a % 2 == 1 && b % 2 == 1 then 1 else 0)
  }

  /** Anding with n one-bits keeps the value modulo 2^n. */
  lemma {:induction false} AndOnes(b: nat, n: nat)
    ensures And(b, Pow2(n) - 1) == b % Pow2(n)
  {
    if n == 0 {
      assert Pow2(n) == 1;
    } else if b == 0 {
      assert And(b, Pow2(n) - 1) == 0;
    } else {
      var h := Pow2(n - 1);
      assert Pow2(n) == 2 * h;
      var m := 2 * h - 1;
      assert m / 2 == h - 1 && m % 2 == 1;
      AndOnes(b / 2, n - 1);
      var low := if b % 2 == 1 then 1 else 0;
      assert And(b, m) == 2 * And(b / 2, h - 1) + low;
      DivMod2(b, n - 1);
      assert n - 1 + 1 == n;
      assert b % Pow2(n) == 2 * ((b / 2) % h) + b % 2;
    }
  }

  /** b % 2^(n+1) == 2 * ((b/2) % 2^n) + b % 2 */
  lemma DivMod2(b: nat, n: nat)
    ensures b % Pow2(n + 1) == 2 * ((b / 2) % Pow2(n)) + b % 2
  {
    var p := Pow2(n);
    var q := (b / 2) / p;
    var r := (b / 2) % p;
    assert b / 2 == q * p + r;
    assert Pow2(n + 1) == 2 * p;
    assert b == q * (2 * p) + (2 * r + b % 2);
    DivModUnique(b, 2 * p, q, 2 * r + b % 2);
  }

  /** Anding an n-bit value with the mask whose top n-k of n bits are set
      clears the low k bits. */
  lemma {:induction false} AndHighBits(a: nat, n: nat, k: nat, m: nat)
    requires k <= n && a < Pow2(n) && m + Pow2(k) == Pow2(n)
    ensures And(m, a) == Shr(a, k) * Pow2(k)
  {
    if k == 0 {
      AndOnes(a, n);
      AndComm(m, a);
      DivModUnique(a, Pow2(n), 0, a);
    } else if k == n {
      DivModUnique(a, Pow2(k), 0, a);
    } else if a != 0 {
      var m' := Pow2(n - 1) - Pow2(k - 1);
      Pow2Monotone(k - 1, n - 1);
      HalveMask(m, m', n, k);
      AndHighBits(a / 2, n - 1, k - 1, m');
      DivTwice(a, k - 1);
      AndEven(m, a, Shr(a, k) * Pow2(k - 1));
      Twice(Shr(a, k), Pow2(k - 1));
    }
  }

  lemma HalveMask(m: nat, m': nat, n: nat, k: nat)
    requires 0 < k < n && m + Pow2(k) == Pow2(n) && m' + Pow2(k - 1) == Pow2(n - 1)
    ensures m != 0 && m / 2 == m' && m % 2 == 0
  {
    assert m == 2 * m';
    Pow2Monotone(k, n - 1);
  }

  lemma AndEven(m: nat, a: nat, x: nat)
    requires m != 0 && a != 0 && m % 2 == 0 && And(m / 2, a / 2) == x
    ensures And(m, a) == 2 * x
  {
  }

  lemma Twice(q: int, p: int)
    ensures 2 * (q * p) == q * (2 * p)
  {
  }

  lemma {:induction false} AndComm(a: nat, b: nat)
    ensures And(a, b) == And(b, a)
    decreases a
  {
    if a != 0 && b != 0 { AndComm(a / 2, b / 2); }
  }

  /** `a & b` is at most `a`. */
  lemma {:induction false} AndAtMost(a: nat, b: nat)
    ensures And(a, b) <= a
    decreases a
  {
    if a != 0 && b != 0 { AndAtMost(a / 2, b / 2); }
  }

  /** All ones in w bits: MSK4 / MSK6 (`int('f' * 8, 16)`, `int('f' * 32, 16)`). */
  function Ones(w: nat): nat { Pow2(w) - 1 }

  /** The netmask as the source computes it: `(msk << (w - x)) & msk`. */
  function Mask(w: nat, x: nat): nat
    requires x <= w
  {
    And(Ones(w) * Pow2(w - x), Ones(w))
  }

  /** The mask has exactly the top x of w bits set. */
  lemma MaskValue(w: nat, x: nat)
    requires x <= w
    ensures Mask(w, x) == Pow2(w) - Pow2(w - x)
  {
    var k := w - x;
    var pw, pk := Pow2(w), Pow2(k);
    AndOnes(Ones(w) * pk, w);
    Pow2Monotone(k, w);
    ShiftedOnes(pw, pk);
    DivModUnique(Ones(w) * pk, pw, pk - 1, pw - pk);
  }

  lemma ShiftedOnes(pw: int, pk: int)
    ensures (pw - 1) * pk == (pk - 1) * pw + (pw - pk)
  {
  }

  /** The masked address is the address with its low w-x bits cleared. */
  lemma MaskAnd(w: nat, x: nat, a: nat)
    requires x <= w && a < Pow2(w)
    ensures And(Mask(w, x), a) == Shr(a, w - x) * Pow2(w - x)
  {
    MaskValue(w, x);
    AndHighBits(a, w, w - x, Mask(w, x));
  }

  // ---------------------------------------------------------------------
  // Hexadecimal text, as `f'{v:0{w}x}'` writes it and `int(s, 16)` reads it

  function HexDigit(d: nat): char
    requires d < 16
  {
    "0123456789abcdef"[d]
  }

  predicate IsHexDigit(c: char) { '0' <= c <= '9' || 'a' <= c <= 'f' || 'A' <= c <= 'F' }

  predicate IsLowerHexDigit(c: char) { '0' <= c <= '9' || 'a' <= c <= 'f' }

  function DigitValue(c: char): (d: nat)
    requires IsHexDigit(c)
    ensures d < 16
  {
    if '0' <= c <= '9' then c as nat - '0' as nat
    else if 'a' <= c <= 'f' then c as nat - 'a' as nat + 10
    else c as nat - 'A' as nat + 10
  }

  function Pow16(n: nat): (r: nat)
    ensures r >= 1
  {
    if n == 0 then 1 else 16 * Pow16(n - 1)
  }

  lemma {:induction false} Pow16IsPow2(n: nat)
    ensures Pow16(n) == Pow2(4 * n)
  {
    if n > 0 {
      Pow16IsPow2(n - 1);
      Pow2Add(4 * (n - 1), 4);
    }
  }

  /** `v` written in exactly w lowercase hex digits (v fits in w digits). */
  function Hex(v: nat, w: nat): (s: string)
    requires v < Pow16(w)
    ensures |s| == w
  {
    if w == 0 then [] else Hex(v / 16, w - 1) + [HexDigit(v % 16)]
  }

  /** `int(s, 16)` of a string of hex digits. The empty string, on which
      `int` raises, reads as 0 here; no caller passes it, since DottedHex
      yields at least two digits and Format at least one. */
  function ParseHex(s: string): nat
    requires forall i :: 0 <= i < |s| ==> IsHexDigit(s[i])
  {
    if s == [] then 0 else ParseHex(s[..|s| - 1]) * 16 + DigitValue(s[|s| - 1])
  }

  predicate IsLowerHex(s: string) { forall i :: 0 <= i < |s| ==> IsLowerHexDigit(s[i]) }

  lemma DigitRoundTrip(d: nat)
    requires d < 16
    ensures IsLowerHexDigit(HexDigit(d)) && IsHexDigit(HexDigit(d)) && DigitValue(HexDigit(d)) == d
  {
  }

  lemma LowerDigitRoundTrip(c: char)
    requires IsLowerHexDigit(c)
    ensures HexDigit(DigitValue(c)) == c
  {
  }

  /** Reading back what Hex wrote gives the value. */
  lemma {:induction false} HexRoundTrip(v: nat, w: nat)
    requires v < Pow16(w)
    ensures IsLowerHex(Hex(v, w)) && ParseHex(Hex(v, w)) == v
  {
    if w > 0 {
      HexRoundTrip(v / 16, w - 1);
      DigitRoundTrip(v % 16);
      var s := Hex(v, w);
      assert s[..|s| - 1] == Hex(v / 16, w - 1);
    }
  }

  lemma {:induction false} ParseHexBound(s: string)
    requires forall i :: 0 <= i < |s| ==> IsHexDigit(s[i])
    ensures ParseHex(s) < Pow16(|s|)
  {
    if s != [] { ParseHexBound(s[..|s| - 1]); }
  }

  /** Writing back what ParseHex read reproduces lowercase text. */
  lemma {:induction false} ParseHexRoundTrip(s: string)
    requires IsLowerHex(s)
    ensures ParseHex(s) < Pow16(|s|) && Hex(ParseHex(s), |s|) == s
  {
    ParseHexBound(s);
    if s != [] {
      var init := s[..|s| - 1];
      ParseHexRoundTrip(init);
      var c := s[|s| - 1];
      var v := ParseHex(init);
      var d := DigitValue(c);
      assert ParseHex(s) == v * 16 + d;
      DivModUnique(v * 16 + d, 16, v, d);
      LowerDigitRoundTrip(c);
      assert s == init + [c];
    }
  }

  /** For lowercase text of width w, comparing text with Hex(v, w) is
      comparing values: what makes the string and integer tests agree. */
  lemma HexTextIffValue(s: string, v: nat)
    requires IsLowerHex(s) && v < Pow16(|s|)
    ensures s == Hex(v, |s|) <==> ParseHex(s) == v
  {
    HexRoundTrip(v, |s|);
    ParseHexRoundTrip(s);
  }

  lemma {:induction false} ParseHexAppend(s: string, t: string)
    requires forall i :: 0 <= i < |s| ==> IsHexDigit(s[i])
    requires forall i :: 0 <= i < |t| ==> IsHexDigit(t[i])
    ensures forall i :: 0 <= i < |s + t| ==> IsHexDigit((s + t)[i])
    ensures ParseHex(s + t) == ParseHex(s) * Pow16(|t|) + ParseHex(t)
  {
    if t != [] {
      var u := s + t;
      var t' := t[..|t| - 1];
      assert u[..|u| - 1] == s + t';
      assert u[|u| - 1] == t[|t| - 1];
      ParseHexAppend(s, t');
      assert ParseHex(u) == ParseHex(s + t') * 16 + DigitValue(t[|t| - 1]);
      assert ParseHex(t) == ParseHex(t') * 16 + DigitValue(t[|t| - 1]);
      assert Pow16(|t|) == Pow16(|t'|) * 16;
      ShiftDigit(ParseHex(s), Pow16(|t'|), ParseHex(t'), DigitValue(t[|t| - 1]));
    } else {
      assert s + t == s;
    }
  }

  lemma ShiftDigit(x: int, p: int, y: int, d: int)
    ensures (x * p + y) * 16 + d == x * (p * 16) + (y * 16 + d)
  {
  }
}
