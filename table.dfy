/** service/lib/data.py: the routing table as a frame of rows. Loading a
    table (`get_df_pandas`), the hexadecimal and next-hop columns
    `prep_df` adds, the two linear longest-prefix scans `lpm_itr` and
    `lpm_map`, building the radix tree from the frame, and turning a radix
    lookup back into a frame (`lpm_lookup_radix`).

    A frame is a sequence of rows in frame order. What Python's
    `ipaddress` module answers is the parameter `lib`. */
module Table {
  import opened AddrMath
  import opened Routes
  import opened Text
  import opened Radix

  // ---------------------------------------------------------------------
  // Constants

  /** `'f' * n`. */
  function Fs(n: nat): (s: string)
    ensures |s| == n && forall i :: 0 <= i < n ==> s[i] == 'f'
  {
    if n == 0 then [] else Fs(n - 1) + ['f']
  }

  /** `int('f' * n, 16)` is n hex digits of one-bits. */
  lemma {:induction false} AllFs(n: nat)
    ensures ParseHex(Fs(n)) == Pow16(n) - 1
  {
    if n > 0 {
      AllFs(n - 1);
      var s := Fs(n);
      assert s[..n - 1] == Fs(n - 1);
    }
  }

  const Msk4: nat := ParseHex(Fs(8))
  const Msk6: nat := ParseHex(Fs(32))
  const MxMetric: int := 0x8000

  /** MSK4 and MSK6 are the all-ones values of 32 and 128 bits. */
  lemma MasksAreOnes()
    ensures Msk4 == Ones(32) && Msk6 == Ones(128)
  {
    AllFs(8);
    AllFs(32);
    Pow16IsPow2(8);
    Pow16IsPow2(32);
  }

  lemma MskIsOnes(f: Family)
    ensures Msk(f) == Ones(Width(f))
  {
    MasksAreOnes();
  }

  /** The family a row's `v` column names; rows only ever hold 4 or 6. */
  function FamilyOf(v: nat): Family { if v == 4 then V4 else V6 }

  /** The all-ones value of a family. */
  function Msk(f: Family): nat { if f == V4 then Msk4 else Msk6 }

  /** Hex digits of an address or mask column: 8 for IPv4, 32 for IPv6. */
  function HexLen(f: Family): (n: nat)
    ensures Pow16(n) == Pow2(Width(f))
  {
    Pow16IsPow2(8);
    Pow16IsPow2(32);
    if f == V4 then 8 else 32
  }

  // ---------------------------------------------------------------------
  // What `ipaddress` answers

  /** `ip_network(s)` (strict: None where it raises), `ip_address(s)`, and
      the texts the library prints: `network.with_prefixlen` and
      `str(address)`. */
  datatype IpLib = IpLib(network: string -> Option<Prefix>, address: string -> Option<Addr>,
                         withPrefixLen: Prefix -> string, addrText: Addr -> string)

  /** `ip_network(s)`. */
  function Net(lib: IpLib, s: string): Option<Prefix> { lib.network(s) }

  /** `ip_address(s)`. */
  function Address(lib: IpLib, s: string): Option<Addr> { lib.address(s) }

  /** Whatever `ipaddress` accepts is a well-formed network or address. */
  ghost predicate Sound(lib: IpLib) {
    (forall s {:trigger Net(lib, s)} :: Net(lib, s).Some? ==> ValidPrefix(Net(lib, s).value)) &&
    (forall s {:trigger Address(lib, s)} :: Address(lib, s).Some? ==> ValidAddr(Address(lib, s).value))
  }

  // The texts `ipaddress` prints

  /** `network.with_prefixlen`. */
  function WithPrefixLen(lib: IpLib, p: Prefix): string { lib.withPrefixLen(p) }

  /** `str(address)`. */
  function AddrText(lib: IpLib, a: Addr): string { lib.addrText(a) }

  /** The printed texts parse back to what was printed. */
  ghost predicate Canonical(lib: IpLib) {
    (forall p {:trigger WithPrefixLen(lib, p)} :: ValidPrefix(p) ==> Net(lib, WithPrefixLen(lib, p)) == Some(p)) &&
    (forall a {:trigger AddrText(lib, a)} :: ValidAddr(a) ==> Address(lib, AddrText(lib, a)) == Some(a))
  }

  // ---------------------------------------------------------------------
  // get_df_pandas

  /** A row as `get_df_pandas` loads it from a `prefix;next_hop` line. */
  datatype Loaded = Loaded(prefix: string, nextHop: string, v: nat, addr: string, prefixLen: nat, metric: int)

  /** One line: `v` is 6 when the prefix text holds a ':' and 4 otherwise,
      `addr` and `prefixlen` are the two sides of its '/', and the metric
      is MXMETRIC. None where pandas raises: a prefix without exactly one
      '/', or a length that is not decimal text. */
  function LoadRow(prefix: string, nextHop: string): Option<Loaded> {
    var parts := Split(prefix, '/');
    if |parts| != 2 then None
    else
      match Decimal(parts[1])
      case None => None
      case Some(len) => Some(Loaded(prefix, nextHop, if ':' in prefix then 6 else 4, parts[0], len, MxMetric))
  }

  /** A loaded row splits its prefix text at its only '/' into the address
      text and the decimal length, and defaults the rest. */
  lemma LoadRowColumns(prefix: string, nextHop: string)
    requires LoadRow(prefix, nextHop).Some?
    ensures var r := LoadRow(prefix, nextHop).value;
      r.prefix == prefix && r.nextHop == nextHop && r.metric == MxMetric &&
      (r.v == 6 <==> ':' in prefix) && (r.v == 4 <==> ':' !in prefix) &&
      '/' !in r.addr && |r.addr| < |prefix| && prefix[..|r.addr|] == r.addr && prefix[|r.addr|] == '/' &&
      Decimal(prefix[|r.addr| + 1..]) == Some(r.prefixLen)
  {
    var parts := Split(prefix, '/');
    SplitJoin(prefix, '/');
    assert parts[1..] == [parts[1]];
    assert prefix == parts[0] + ['/'] + parts[1];
    assert prefix[|parts[0]| + 1..] == parts[1];
  }

  /** Loading the canonical text `addr/len` gives back addr and len. */
  lemma LoadRowRoundTrip(addr: string, len: nat, nextHop: string)
    requires '/' !in addr
    ensures var prefix := addr + "/" + DecimalText(len);
      LoadRow(prefix, nextHop) == Some(Loaded(prefix, nextHop, if ':' in prefix then 6 else 4, addr, len, MxMetric))
  {
    var t := DecimalText(len);
    assert forall k :: 0 <= k < |t| ==> t[k] != '/';
    SplitOnce(addr, t, '/');
    DecimalRoundTrip(len);
  }

  /** A row-wise step over a whole frame: every row or, where one fails,
      nothing (pandas raises and the frame is never built). */
  function AllRows<A, B>(xs: seq<A>, f: A -> Option<B>): Option<seq<B>> {
    if xs == [] then Some([])
    else
      match (f(xs[0]), AllRows(xs[1..], f))
      case (Some(y), Some(rest)) => Some([y] + rest)
      case _ => None
  }

  /** The frame is built when every row is, and then holds one result per
      row, in order. */
  lemma {:induction false} AllRowsIff<A, B>(xs: seq<A>, f: A -> Option<B>)
    ensures AllRows(xs, f).Some? <==> forall i :: 0 <= i < |xs| ==> f(xs[i]).Some?
    ensures AllRows(xs, f).Some? ==>
      |AllRows(xs, f).value| == |xs| && forall i :: 0 <= i < |xs| ==> AllRows(xs, f).value[i] == f(xs[i]).value
  {
    if xs != [] {
      AllRowsIff(xs[1..], f);
      assert forall i :: 1 <= i < |xs| ==> xs[1..][i - 1] == xs[i];
    }
  }

  /** `get_df_pandas` over the `(prefix, next_hop)` lines of the file. */
  function GetDf(lines: seq<(string, string)>): Option<seq<Loaded>> {
    AllRows(lines, LoadLine)
  }

  function LoadLine(line: (string, string)): Option<Loaded> {
    LoadRow(line.0, line.1)
  }

  // ---------------------------------------------------------------------
  // prep_df

  /** A prepared row: the loaded columns plus `nhn` and `mask`, with `addr`
      rewritten as hex. */
  datatype Row = Row(prefix: string, nextHop: string, v: nat, addr: string, prefixLen: nat, metric: int,
                     nhn: nat, mask: string)

  /** `f'{int(i):02x}'` of each piece, joined. */
  function OctetsHex(parts: seq<string>): (r: Option<string>)
    ensures r.Some? ==> IsLowerHex(r.value) && |r.value| >= 2 * |parts|
  {
    if parts == [] then Some([])
    else
      match (Decimal(parts[0]), OctetsHex(parts[1..]))
      case (Some(n), Some(rest)) => Some(Format(n, 2) + rest)
      case _ => None
  }

  /** `''.join([f'{int(i):02x}' for i in x.split('.')])`; None where `int`
      raises. */
  function DottedHex(x: string): (r: Option<string>)
    ensures r.Some? ==> IsLowerHex(r.value) && |r.value| >= 2
  {
    OctetsHex(Split(x, '.'))
  }

  /** The integer whose base-256 digits are the octets. */
  function OctetsValue(os: seq<nat>): nat {
    if os == [] then 0 else os[0] * Pow16(2 * (|os| - 1)) + OctetsValue(os[1..])
  }

  /** `[str(o) for o in os]`. */
  function DecimalTexts(os: seq<nat>): (ts: seq<string>)
    ensures |ts| == |os| && forall i :: 0 <= i < |os| ==> ts[i] == DecimalText(os[i])
  {
    seq(|os|, i requires 0 <= i < |os| => DecimalText(os[i]))
  }

  lemma {:induction false} OctetsHexValue(os: seq<nat>)
    requires forall i :: 0 <= i < |os| ==> os[i] < 256
    ensures OctetsHex(DecimalTexts(os)).Some?
    ensures |OctetsHex(DecimalTexts(os)).value| == 2 * |os|
    ensures ParseHex(OctetsHex(DecimalTexts(os)).value) == OctetsValue(os)
  {
    if os != [] {
      var d := DecimalTexts(os);
      OctetsHexValue(os[1..]);
      assert d[1..] == DecimalTexts(os[1..]);
      var rest := OctetsHex(d[1..]).value;
      DecimalRoundTrip(os[0]);
      assert Decimal(d[0]) == Some(os[0]);
      var head := Format(os[0], 2);
      assert Pow16(2) == 256;
      FormatFits(os[0], 2);
      assert OctetsHex(d) == Some(head + rest);
      assert |rest| == 2 * (|os| - 1);
      ParseHexAppend(head, rest);
      assert ParseHex(head + rest) == os[0] * Pow16(2 * (|os| - 1)) + OctetsValue(os[1..]);
    }
  }

  lemma NoDotInDecimal(n: nat)
    ensures '.' !in DecimalText(n)
  {
    var t := DecimalText(n);
    assert forall k :: 0 <= k < |t| ==> t[k] != '.';
  }

  /** For a dotted quad the hex column is the 32-bit value of the address,
      in 8 digits. */
  lemma DottedQuad(os: seq<nat>)
    requires |os| == 4 && forall i :: 0 <= i < 4 ==> os[i] < 256
    ensures OctetsValue(os) == os[0] * 0x100_0000 + os[1] * 0x1_0000 + os[2] * 0x100 + os[3]
    ensures OctetsValue(os) < Pow2(32)
    ensures DottedHex(Join(DecimalTexts(os), '.')) == Some(Hex(OctetsValue(os), 8))
  {
    forall k | 0 <= k < 4 ensures '.' !in DecimalTexts(os)[k] {
      NoDotInDecimal(os[k]);
    }
    JoinSplit(DecimalTexts(os), '.');
    OctetsHexValue(os);
    var t := OctetsHex(DecimalTexts(os)).value;
    ParseHexRoundTrip(t);
    Pow16IsPow2(8);
    QuadValue(os);
  }

  lemma QuadValue(os: seq<nat>)
    requires |os| == 4
    ensures OctetsValue(os) == os[0] * 0x100_0000 + os[1] * 0x1_0000 + os[2] * 0x100 + os[3]
  {
    assert Pow16(6) == 0x100_0000 && Pow16(4) == 0x1_0000 && Pow16(2) == 0x100 && Pow16(0) == 1;
    var t1 := os[1..];
    var t2 := t1[1..];
    var t3 := t2[1..];
    assert t3[1..] == [];
    assert OctetsValue(t3) == os[3];
    assert OctetsValue(t2) == os[2] * 0x100 + os[3];
    assert OctetsValue(t1) == os[1] * 0x1_0000 + os[2] * 0x100 + os[3];
  }

  /** `f'{(msk << (w - x)) & msk:0{w/4}x}'`; None for x > w, where the
      negative shift count raises. */
  function MaskText(f: Family, x: nat): Option<string> {
    if x <= Width(f) then Some(Format(ShiftMask(Msk(f), Width(f) - x), HexLen(f))) else None
  }

  /** `(msk << k) & msk`. */
  function ShiftMask(msk: nat, k: nat): nat { And(msk * Pow2(k), msk) }

  /** The mask column is the netmask of the length (its top x bits set,
      MaskValue) in exactly the family's number of digits. */
  lemma MaskTextValue(f: Family, x: nat)
    requires x <= Width(f)
    ensures MaskText(f, x) == Some(Format(Mask(Width(f), x), HexLen(f)))
    ensures |MaskText(f, x).value| == HexLen(f)
  {
    var w, k, msk := Width(f), HexLen(f), Msk(f);
    MskIsOnes(f);
    FormatMask(msk, w, x, k);
    assert MaskText(f, x) == Some(Format(ShiftMask(msk, w - x), k));
  }

  lemma FormatMask(msk: nat, w: nat, x: nat, k: nat)
    requires msk == Ones(w) && x <= w && k >= 1 && Pow16(k) == Pow2(w)
    ensures Format(ShiftMask(msk, w - x), k) == Format(Mask(w, x), k)
    ensures |Format(Mask(w, x), k)| == k && ParseHex(Format(Mask(w, x), k)) == Pow2(w) - Pow2(w - x)
  {
    MaskValue(w, x);
    FormatFits(Mask(w, x), k);
  }

  /** `prep_df` on one row. For IPv4 the next hop and the address text go
      through DottedHex; for IPv6 through `ip_network`, the address written
      in 32 digits. None where `int` or `ipaddress` raises. */
  function PrepRow(l: Loaded, lib: IpLib): Option<Row> {
    var f := FamilyOf(l.v);
    var nhn: Option<nat> :=
      if f == V4 then (match DottedHex(l.nextHop) case Some(t) => Some(ParseHex(t)) case None => None)
      else (match lib.network(l.nextHop) case Some(p) => Some(p.net) case None => None);
    var addr: Option<string> :=
      if f == V4 then DottedHex(l.addr)
      else (match lib.network(l.addr) case Some(p) => Some(Format(p.net, HexLen(f))) case None => None);
    var mask := MaskText(f, l.prefixLen);
    if nhn.Some? && addr.Some? && mask.Some? then
      Some(Row(l.prefix, l.nextHop, l.v, addr.value, l.prefixLen, l.metric, nhn.value, mask.value))
    else None
  }

  /** What a prepared row holds: the loaded columns unchanged, a mask of
      the family's width with the top `prefixlen` bits set, and a lowercase
      hex address (of the family's width for IPv6). */
  lemma PrepRowColumns(l: Loaded, lib: IpLib)
    requires Sound(lib) && PrepRow(l, lib).Some?
    ensures var r := PrepRow(l, lib).value; var f := FamilyOf(l.v);
      r.prefix == l.prefix && r.nextHop == l.nextHop && r.v == l.v && r.prefixLen == l.prefixLen &&
      r.metric == l.metric && l.prefixLen <= Width(f) &&
      r.mask == Format(Mask(Width(f), l.prefixLen), HexLen(f)) && |r.mask| == HexLen(f) &&
      IsLowerHex(r.addr) && (f == V6 ==> |r.addr| == HexLen(f))
  {
    var f := FamilyOf(l.v);
    var r := PrepRow(l, lib).value;
    MaskTextValue(f, l.prefixLen);
    assert r.mask == MaskText(f, l.prefixLen).value;
    AddrWidth(l, lib);
  }

  lemma AddrWidth(l: Loaded, lib: IpLib)
    requires Sound(lib) && PrepRow(l, lib).Some?
    ensures FamilyOf(l.v) == V6 ==> |PrepRow(l, lib).value.addr| == HexLen(FamilyOf(l.v))
  {
    var f := FamilyOf(l.v);
    if f == V6 {
      var p := Net(lib, l.addr).value;
      Pow2Monotone(Width(p.family), Width(f));
      FormatFits(p.net, HexLen(f));
    }
  }

  /** `prep_df` over the frame. */
  function PrepDf(df: seq<Loaded>, lib: IpLib): Option<seq<Row>> {
    AllRows(df, (l: Loaded) => PrepRow(l, lib))
  }

  // ---------------------------------------------------------------------
  // lpm_itr and lpm_map

  predicate HexText(s: string) { forall i :: 0 <= i < |s| ==> IsHexDigit(s[i]) }

  /** The hex columns of a well-formed row: lowercase and of the width of
      its family. */
  predicate Hexed(r: Row) {
    (r.v == 4 || r.v == 6) && IsLowerHex(r.addr) && IsLowerHex(r.mask) &&
    |r.addr| == HexLen(FamilyOf(r.v)) && |r.mask| == HexLen(FamilyOf(r.v))
  }

  /** The test of `lpm_itr`: `int(mask, 16) & ip == int(addr, 16)` on a row
      of the address's version. */
  predicate ItrMatch(r: Row, a: Addr) {
    HexText(r.mask) && HexText(r.addr) &&
    And(ParseHex(r.mask), a.value) == ParseHex(r.addr) && r.v == Version(a.family)
  }

  /** The test of `lpm_map`: on rows of the address's version, the address
      text equals `mask & ip` written in the family's number of digits. */
  predicate MapMatch(r: Row, a: Addr) {
    r.v == Version(a.family) && HexText(r.mask) &&
    r.addr == Format(And(ParseHex(r.mask), a.value), HexLen(a.family))
  }

  /** The rows `lpm_itr` keeps, in frame order. */
  function Scan(rows: seq<Row>, a: Addr): (r: seq<Row>)
    ensures forall x :: x in r <==> x in rows && ItrMatch(x, a)
  {
    if rows == [] then []
    else
      var last := rows[|rows| - 1];
      assert rows == rows[..|rows| - 1] + [last];
      Scan(rows[..|rows| - 1], a) + (if ItrMatch(last, a) then [last] else [])
  }

  /** The rows `lpm_map` keeps, in frame order. */
  function MapScan(rows: seq<Row>, a: Addr): (r: seq<Row>)
    ensures forall x :: x in r <==> x in rows && MapMatch(x, a)
  {
    if rows == [] then []
    else
      var last := rows[|rows| - 1];
      assert rows == rows[..|rows| - 1] + [last];
      MapScan(rows[..|rows| - 1], a) + (if MapMatch(last, a) then [last] else [])
  }

  /** `lpm_itr`: a pass over the rows collecting the matching ones. */
  method LpmItr(rows: seq<Row>, a: Addr) returns (result: seq<Row>)
    requires forall i :: 0 <= i < |rows| ==> HexText(rows[i].mask) && HexText(rows[i].addr)
    ensures result == Scan(rows, a)
  {
    result := [];
    var i := 0;
    while i < |rows|
      invariant 0 <= i <= |rows| && result == Scan(rows[..i], a)
    {
      var row := rows[i];
      if And(ParseHex(row.mask), a.value) == ParseHex(row.addr) && row.v == Version(a.family) {
        result := result + [row];
      }
      assert rows[..i + 1][..i] == rows[..i];
      i := i + 1;
    }
    assert rows[..|rows|] == rows;
  }

  /** On a well-formed row the string test of `lpm_map` and the integer
      test of `lpm_itr` agree. */
  lemma RowTestsAgree(r: Row, a: Addr)
    requires Hexed(r)
    ensures MapMatch(r, a) <==> ItrMatch(r, a)
  {
    if r.v == Version(a.family) {
      var m := ParseHex(r.mask);
      var x := And(m, a.value);
      AndAtMost(m, a.value);
      ParseHexBound(r.mask);
      FormatFits(x, HexLen(a.family));
      HexTextIffValue(r.addr, x);
    }
  }

  /** On well-formed rows `lpm_map` and `lpm_itr` return the same frame. */
  lemma {:induction false} MapIsItr(rows: seq<Row>, a: Addr)
    requires forall i :: 0 <= i < |rows| ==> Hexed(rows[i])
    ensures MapScan(rows, a) == Scan(rows, a)
  {
    if rows != [] {
      MapIsItr(rows[..|rows| - 1], a);
      RowTestsAgree(rows[|rows| - 1], a);
    }
  }

  // ---------------------------------------------------------------------
  // The frame and the trie

  /** The row's hex columns are those of the network `p` its prefix text
      parses to. */
  predicate Agrees(r: Row, p: Prefix) {
    ValidPrefix(p) && r.v == Version(p.family) && r.prefixLen == p.len &&
    r.addr == Format(p.net, HexLen(p.family)) && r.mask == Format(Mask(Width(p.family), p.len), HexLen(p.family))
  }

  /** Every row's prefix text parses, to the network its columns describe. */
  predicate Consistent(rows: seq<Row>, lib: IpLib) {
    forall r :: r in rows ==> lib.network(r.prefix).Some? && Agrees(r, lib.network(r.prefix).value)
  }

  /** Four octets, each below 256. */
  predicate Quad(os: seq<nat>) {
    |os| == 4 && forall i :: 0 <= i < 4 ==> os[i] < 256
  }

  /** How `ip_network` reads a prefix text `s` into the network `p`: `s`
      is `addr/len` with the decimal length of `p`; `p` is IPv6 exactly
      when `s` holds a ':'; an IPv4 `addr` is the dotted quad of the
      octets of `p`, since `ip_network` refuses octets above 255 and
      leading zeros; an IPv6 `addr` read alone is a network whose integer
      is that of `p`, since the strict parse refuses host bits. */
  ghost predicate ReadsAs(lib: IpLib, s: string, p: Prefix) {
    var parts := Split(s, '/');
    |parts| == 2 && Decimal(parts[1]) == Some(p.len) && (p.family == V6 <==> ':' in s) &&
    (p.family == V4 ==> exists os :: Quad(os) && OctetsValue(os) == p.net && parts[0] == Join(DecimalTexts(os), '.')) &&
    (p.family == V6 ==> Net(lib, parts[0]).Some? && Net(lib, parts[0]).value.net == p.net)
  }

  /** `ip_network` reads every text of the form `addr/decimal` it accepts
      as ReadsAs says. Other texts it accepts (a bare address, a netmask
      or hostmask after the '/') are not constrained: `get_df_pandas`
      refuses them. */
  ghost predicate Reads(lib: IpLib) {
    forall s {:trigger Net(lib, s)} ::
      Net(lib, s).Some? && |Split(s, '/')| == 2 && Decimal(Split(s, '/')[1]).Some? ==>
      ReadsAs(lib, s, Net(lib, s).value)
  }

  /** A loaded row whose prefix parses is prepared into a row whose
      columns describe the parsed network. */
  lemma PrepRowAgrees(l: Loaded, lib: IpLib)
    requires Sound(lib) && Reads(lib) && LoadRow(l.prefix, l.nextHop) == Some(l)
    requires PrepRow(l, lib).Some? && Net(lib, l.prefix).Some?
    ensures Agrees(PrepRow(l, lib).value, Net(lib, l.prefix).value)
  {
    var p := Net(lib, l.prefix).value;
    var parts := Split(l.prefix, '/');
    assert ReadsAs(lib, l.prefix, p);
    assert l.addr == parts[0] && l.prefixLen == p.len;
    PrepRowColumns(l, lib);
    if p.family == V4 {
      var os :| Quad(os) && OctetsValue(os) == p.net && parts[0] == Join(DecimalTexts(os), '.');
      DottedQuad(os);
      assert HexLen(V4) == 8;
      FormatFits(p.net, 8);
    }
  }

  /** A frame `get_df_pandas` loads and `prep_df` prepares is consistent
      exactly when every prefix parses, which is when `build_radix_tree`
      builds the trie. */
  lemma PrepDfConsistent(lines: seq<(string, string)>, lib: IpLib, rows: seq<Row>)
    requires Sound(lib) && Reads(lib) && GetDf(lines).Some? && PrepDf(GetDf(lines).value, lib) == Some(rows)
    ensures Consistent(rows, lib) <==> forall r :: r in rows ==> Net(lib, r.prefix).Some?
  {
    var df := GetDf(lines).value;
    forall r | r in rows && Net(lib, r.prefix).Some?
      ensures Agrees(r, Net(lib, r.prefix).value)
    {
      var i :| 0 <= i < |rows| && rows[i] == r;
      PreparedRow(df, lib, rows, i);
      LoadedRow(lines, df, i);
      PrepRowAgrees(df[i], lib);
    }
  }

  lemma LoadedRow(lines: seq<(string, string)>, df: seq<Loaded>, i: nat)
    requires GetDf(lines) == Some(df) && i < |df|
    ensures LoadRow(df[i].prefix, df[i].nextHop) == Some(df[i])
  {
    AllRowsIff(lines, LoadLine);
  }

  lemma PreparedRow(df: seq<Loaded>, lib: IpLib, rows: seq<Row>, i: nat)
    requires PrepDf(df, lib) == Some(rows) && i < |rows|
    ensures |rows| == |df| && PrepRow(df[i], lib) == Some(rows[i])
  {
    var prep := (l: Loaded) => PrepRow(l, lib);
    assert PrepDf(df, lib) == AllRows(df, prep);
    AllRowsIff(df, prep);
  }

  /** A row that agrees with its network is well formed, and its columns
      read back as the network and its netmask. */
  lemma AgreesHexed(r: Row, p: Prefix)
    requires Agrees(r, p)
    ensures Hexed(r) && ParseHex(r.addr) == p.net && ParseHex(r.mask) == Mask(Width(p.family), p.len)
  {
    var w := Width(p.family);
    MaskValue(w, p.len);
    FormatFits(p.net, HexLen(p.family));
    FormatFits(Mask(w, p.len), HexLen(p.family));
  }

  /** `lpm_itr` keeps a row exactly when its network contains the address. */
  lemma ItrMatchIffContains(r: Row, p: Prefix, a: Addr)
    requires Agrees(r, p) && ValidAddr(a)
    ensures ItrMatch(r, a) <==> Contains(p, a)
  {
    AgreesHexed(r, p);
    if p.family == a.family {
      MaskTestIffContains(p, a);
    }
  }

  /** The `nhn` the trie stores: the integer of the next hop when it parses
      as an address. */
  function AddrValue(a: Option<Addr>): Option<nat> {
    if a.Some? then Some(a.value.value) else None
  }

  /** The record `insert` stores for a row. */
  function RouteOf(r: Row, lib: IpLib): RouteInfo
    requires lib.network(r.prefix).Some?
  {
    RouteInfo(r.prefix, lib.network(r.prefix).value, r.nextHop, r.metric, NhnOf(AddrValue(lib.address(r.nextHop))))
  }

  /** The records of a frame, in frame order. */
  function RoutesOf(rows: seq<Row>, lib: IpLib): (routes: seq<RouteInfo>)
    requires forall r :: r in rows ==> lib.network(r.prefix).Some?
    ensures |routes| == |rows| && forall i :: 0 <= i < |rows| ==> routes[i] == RouteOf(rows[i], lib)
  {
    if rows == [] then []
    else
      var last := rows[|rows| - 1];
      assert forall r :: r in rows[..|rows| - 1] ==> r in rows;
      RoutesOf(rows[..|rows| - 1], lib) + [RouteOf(last, lib)]
  }

  /** The linear scan and the trie's specification select the same routes:
      the records whose network contains the address are the records of
      the rows `lpm_itr` keeps, in the same order. */
  lemma {:induction false} ScanIsSelect(rows: seq<Row>, lib: IpLib, a: Addr)
    requires Consistent(rows, lib) && ValidAddr(a)
    ensures Select(RoutesOf(rows, lib), Covers(a)) == RoutesOf(Scan(rows, a), lib)
  {
    if rows != [] {
      var init, last := rows[..|rows| - 1], rows[|rows| - 1];
      assert forall r :: r in init ==> r in rows;
      ScanIsSelect(init, lib, a);
      var x := RouteOf(last, lib);
      var f := Pred(Covers(a));
      var before := RoutesOf(init, lib);
      assert RoutesOf(rows, lib) == before + [x];
      FilterAppend(before, [x], f);
      assert Filter([x], f) == if f(x) then [x] else [] by {
        assert [x][1..] == [];
      }
      CoversIff(x, a);
      ItrMatchIffContains(last, lib.network(last.prefix).value, a);
      var s := Scan(init, a);
      assert Filter(before, f) == RoutesOf(s, lib);
      var lhs := Select(RoutesOf(rows, lib), Covers(a));
      assert lhs == Filter(before, f) + Filter([x], f);
      if ItrMatch(last, a) {
        var u := s + [last];
        assert Scan(rows, a) == u;
        assert u[..|u| - 1] == s;
        assert RoutesOf(u, lib) == RoutesOf(s, lib) + [x];
        assert lhs == RoutesOf(s, lib) + [x];
      } else {
        assert Scan(rows, a) == s + [];
        assert s + [] == s;
        assert lhs == RoutesOf(s, lib) + [];
      }
    }
  }

  /** The radix lookup of an address over a tree built from the frame finds
      the same routes as `lpm_itr` over the frame. */
  lemma LookupIsScan(rows: seq<Row>, lib: IpLib, a: Addr)
    requires Consistent(rows, lib) && ValidAddr(a)
    ensures multiset(Collect(RoutesOf(rows, lib), a, 0)) == multiset(RoutesOf(Scan(rows, a), lib))
  {
    CollectAll(RoutesOf(rows, lib), a);
    ScanIsSelect(rows, lib, a);
  }

  /** `build_radix_tree`: insert every row, in frame order. A row whose
      prefix does not parse stops the build (`insert` raises). */
  method BuildRadixTree(rows: seq<Row>, lib: IpLib) returns (tree: RadixTree, ok: bool)
    requires Sound(lib)
    ensures fresh(tree) && tree.Valid() && fresh(tree.Nodes.Values)
    ensures ok <==> forall r :: r in rows ==> lib.network(r.prefix).Some?
    ensures ok ==> tree.Inserted == RoutesOf(rows, lib) && tree.routeCount == |rows|
  {
    tree := new RadixTree();
    var i := 0;
    while i < |rows|
      invariant 0 <= i <= |rows|
      invariant fresh(tree) && tree.Valid() && fresh(tree.Nodes.Values)
      invariant forall r :: r in rows[..i] ==> lib.network(r.prefix).Some?
      invariant tree.Inserted == RoutesOf(rows[..i], lib)
    {
      var inserted := InsertRow(tree, rows[i], lib);
      if !inserted {
        return tree, false;
      }
      RoutesOfStep(rows, i, lib);
      i := i + 1;
    }
    assert rows[..|rows|] == rows;
    ok := true;
  }

  /** One step of `build_radix_tree`: insert one row. */
  method InsertRow(tree: RadixTree, row: Row, lib: IpLib) returns (inserted: bool)
    requires Sound(lib) && tree.Valid()
    modifies tree, tree.Nodes.Values
    ensures tree.Valid() && fresh(tree.Nodes.Values - old(tree.Nodes.Values))
    ensures inserted == lib.network(row.prefix).Some?
    ensures inserted ==> tree.Inserted == old(tree.Inserted) + [RouteOf(row, lib)]
  {
    inserted := tree.Insert(row.prefix, Net(lib, row.prefix), row.nextHop,
                            AddrValue(lib.address(row.nextHop)), row.metric);
  }

  lemma RoutesOfStep(rows: seq<Row>, i: nat, lib: IpLib)
    requires i < |rows| && lib.network(rows[i].prefix).Some?
    requires forall r :: r in rows[..i] ==> lib.network(r.prefix).Some?
    ensures forall r :: r in rows[..i + 1] ==> lib.network(r.prefix).Some?
    ensures RoutesOf(rows[..i + 1], lib) == RoutesOf(rows[..i], lib) + [RouteOf(rows[i], lib)]
  {
    assert rows[..i + 1] == rows[..i] + [rows[i]];
    assert rows[..i + 1][..i] == rows[..i];
  }

  /** A row of the frame `lpm_lookup_radix` returns. */
  datatype Found = Found(prefix: string, nextHop: string, metric: int, prefixLen: nat, nhn: nat, v: nat)

  function FoundOf(r: RouteInfo): Found {
    Found(r.prefix, r.nextHop, r.metric, r.network.len, r.nhn, Version(r.network.family))
  }

  /** The frame of a list of routes, one row per route, in order. */
  function FoundAll(s: seq<RouteInfo>): (f: seq<Found>)
    ensures |f| == |s| && forall i :: 0 <= i < |s| ==> f[i] == FoundOf(s[i])
  {
    seq(|s|, i requires 0 <= i < |s| => FoundOf(s[i]))
  }

  /** `lpm_lookup_radix`: an address that does not parse gives the empty
      frame; otherwise one row per route the trie walk meets, which is
      empty exactly when no route contains the address. The trie is asked
      with the printed address, which `lookup` parses again. */
  method LpmLookupRadix(tree: RadixTree, ipAddress: string, lib: IpLib) returns (frame: seq<Found>)
    requires tree.Valid() && Sound(lib) && Canonical(lib)
    ensures lib.address(ipAddress).None? ==> frame == []
    ensures lib.address(ipAddress).Some? ==>
      frame == FoundAll(Collect(tree.Inserted, lib.address(ipAddress).value, 0)) &&
      (frame == [] <==> Select(tree.Inserted, Covers(lib.address(ipAddress).value)) == [])
  {
    var addr := Address(lib, ipAddress);
    if addr.None? {
      return [];
    }
    var routes := tree.Lookup(Address(lib, AddrText(lib, addr.value)));
    var found := routes.value;
    NoMatchIff(tree.Inserted, addr.value);
    if |found| == 0 {
      return [];
    }
    frame := FoundAll(found);
  }
}
