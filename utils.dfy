/** service/utils/data.py: the second copy of the table code. Its
    constants MSK4, MSK6 and MAX_METRIC, the per-row arithmetic of
    `__prep_df` and its `lpm_itr` loop are those of service/lib/data.py
    (Table.Msk4, Table.PrepRow, Table.LpmItr). What differs is modelled
    here: the digit count `lpm_map` formats with, the `nhn` normalisation
    of `__prep_df`, and an `lpm_update` that returns only the matched rows
    with their new metric. */
module Utils {
  import opened AddrMath
  import opened Routes
  import opened Text
  import opened Radix
  import opened Table
  import opened Service

  // ---------------------------------------------------------------------
  // lpm_map

  /** `1 << (version - 1)`: the number of digits `lpm_map` writes. */
  function HexWidth(f: Family): nat {
    Pow2(Version(f) - 1)
  }

  /** The formula gives the digit counts of the address columns: 8 for
      IPv4 and 32 for IPv6. */
  lemma HexWidthIsHexLen(f: Family)
    ensures HexWidth(f) == HexLen(f)
    ensures HexWidth(f) == if f == V4 then 8 else 32
  {
    assert Pow2(3) == 8;
    assert Pow2(5) == 32;
  }

  /** The test of `lpm_map`: on rows of the address's version, the address
      text equals `mask_hex_len % (int(mask, 16) & ip)`. */
  predicate WidthMatch(r: Row, a: Addr) {
    r.v == Version(a.family) && HexText(r.mask) &&
    r.addr == Format(And(ParseHex(r.mask), a.value), HexWidth(a.family))
  }

  /** `lpm_map`: the rows passing the test, in frame order. */
  function LpmMap(rows: seq<Row>, a: Addr): seq<Row> {
    Pick(rows, (r: Row) => WidthMatch(r, a))
  }

  /** On a well-formed row the test of `lpm_map` here is the integer test
      of `lpm_itr`. */
  lemma WidthMatchIff(r: Row, a: Addr)
    requires Hexed(r)
    ensures WidthMatch(r, a) <==> ItrMatch(r, a)
  {
    HexWidthIsHexLen(a.family);
    RowTestsAgree(r, a);
    assert WidthMatch(r, a) <==> MapMatch(r, a);
  }

  /** Picking by a test that agrees with the `lpm_itr` test row by row is
      the `lpm_itr` scan. */
  lemma {:induction false} PickIsScan(rows: seq<Row>, a: Addr, f: Row -> bool)
    requires forall i :: 0 <= i < |rows| ==> f(rows[i]) == ItrMatch(rows[i], a)
    ensures Pick(rows, f) == Scan(rows, a)
  {
    if rows != [] {
      var init, last := rows[..|rows| - 1], rows[|rows| - 1];
      assert rows == init + [last];
      PickIsScan(init, a, f);
      PickAppend(init, [last], f);
      assert [last][1..] == [];
      assert Pick([last], f) == if f(last) then [last] else [];
    }
  }

  /** On well-formed rows `lpm_map` returns the frame `lpm_itr` returns:
      the rows of the address's version whose `mask & ip` is their
      address. */
  lemma LpmMapIsScan(rows: seq<Row>, a: Addr)
    requires forall i :: 0 <= i < |rows| ==> Hexed(rows[i])
    ensures LpmMap(rows, a) == Scan(rows, a)
  {
    forall i | 0 <= i < |rows| ensures WidthMatch(rows[i], a) == ItrMatch(rows[i], a) {
      WidthMatchIff(rows[i], a);
    }
    PickIsScan(rows, a, (r: Row) => WidthMatch(r, a));
  }

  // ---------------------------------------------------------------------
  // lpm_update

  /** `next_hop_df["metric"] = metric`. */
  function WithMetric(rows: seq<Row>, m: int): (r: seq<Row>)
    ensures |r| == |rows| && forall i :: 0 <= i < |rows| ==> r[i] == rows[i].(metric := m)
  {
    seq(|rows|, i requires 0 <= i < |rows| => rows[i].(metric := m))
  }

  /** The "orlonger" filter applied to the `lpm_map` rows: next hop equal
      and a length other than 0. */
  function CoveringMask(nh: string): Row -> bool {
    (r: Row) => r.nextHop == nh && r.prefixLen != 0
  }

  /** The rows `lpm_update` picks as written: for "exact" the rows with the
      next hop and the canonical prefix text; for any other match type the
      rows `lpm_map` finds for the network address of the prefix (the
      routes covering it) with the next hop and a length other than 0. */
  function PickedAsWritten(df: seq<Row>, p: Prefix, text: string, nh: string, matchd: string): seq<Row> {
    if matchd == "exact" then Pick(df, ExactMask(text, nh))
    else Pick(LpmMap(df, NetworkAddress(p)), CoveringMask(nh))
  }

  /** `lpm_update` as written: the picked rows carrying the new metric. */
  function LpmUpdateAsWritten(df: seq<Row>, p: Prefix, text: string, nh: string, metric: int,
                              matchd: string): seq<Row>
  {
    WithMetric(PickedAsWritten(df, p, text, nh, matchd), metric)
  }

  /** As written, "orlonger" picks a row of network `q` exactly when it has
      the next hop, a length other than 0, and `q` contains the network
      address of the prefix: the routes covering the prefix, not the
      routes within it. */
  lemma OrlongerAsWrittenIff(df: seq<Row>, p: Prefix, text: string, nh: string, matchd: string, r: Row, q: Prefix)
    requires Agrees(r, q) && ValidPrefix(p) && matchd != "exact" && r in df
    ensures r in PickedAsWritten(df, p, text, nh, matchd) <==>
      r.nextHop == nh && r.prefixLen != 0 && Contains(q, NetworkAddress(p))
  {
    var a := NetworkAddress(p);
    assert ValidAddr(a);
    AgreesHexed(r, q);
    WidthMatchIff(r, a);
    ItrMatchIffContains(r, q, a);
    assert r in LpmMap(df, a) <==> WidthMatch(r, a);
  }

  /** A row lies within the prefix: same version, at least as long, and
      its address under the prefix's netmask is the prefix's network. */
  predicate Within(r: Row, p: Prefix) {
    r.v == Version(p.family) && r.prefixLen >= p.len && p.len <= Width(p.family) && HexText(r.addr) &&
    And(Mask(Width(p.family), p.len), ParseHex(r.addr)) == p.net
  }

  /** The corrected "orlonger" mask: next hop equal and the row within the
      prefix. */
  function WithinMask(p: Prefix, nh: string): Row -> bool {
    (r: Row) => r.nextHop == nh && Within(r, p)
  }

  /** The rows `lpm_update` picks, with "orlonger" picking the routes
      within the prefix. */
  function Picked(df: seq<Row>, p: Prefix, text: string, nh: string, matchd: string): seq<Row> {
    if matchd == "exact" then Pick(df, ExactMask(text, nh))
    else Pick(df, WithinMask(p, nh))
  }

  /** `lpm_update` with "orlonger" picking the routes within the prefix. */
  function LpmUpdate(df: seq<Row>, p: Prefix, text: string, nh: string, metric: int, matchd: string): seq<Row> {
    WithMetric(Picked(df, p, text, nh, matchd), metric)
  }

  /** A row is within a prefix exactly when its network is a subnet of the
      prefix. */
  lemma WithinIffSubnet(r: Row, q: Prefix, p: Prefix)
    requires Agrees(r, q) && ValidPrefix(p)
    ensures Within(r, p) <==> SubnetOf(q, p)
  {
    if q.family == p.family {
      WithinMasked(r, q, p);
      MaskedIffSame(p, q.net);
    } else {
      assert Version(q.family) != Version(p.family);
      assert !Within(r, p);
    }
  }

  /** Within the family of its network, a row is within a prefix when it is
      at least as long and its network under the prefix's netmask is the
      prefix's network. */
  lemma WithinMasked(r: Row, q: Prefix, p: Prefix)
    requires Agrees(r, q) && ValidPrefix(p) && q.family == p.family
    ensures Within(r, p) <==> p.len <= q.len && And(Mask(Width(p.family), p.len), q.net) == p.net
  {
    AgreesHexed(r, q);
  }

  /** A number under a prefix's netmask is the prefix's network exactly when
      it agrees with the network on the prefix's leading bits. */
  lemma MaskedIffSame(p: Prefix, n: nat)
    requires ValidPrefix(p) && n < Pow2(Width(p.family))
    ensures var w := Width(p.family);
      And(Mask(w, p.len), n) == p.net <==> Shr(p.net, w - p.len) == Shr(n, w - p.len)
  {
    var w := Width(p.family);
    var a := Addr(p.family, n);
    MaskTestIffContains(p, a);
    SamePathIff(p.net, n, w, p.len);
    assert Contains(p, a) <==> Bits(p.net, w)[..p.len] == Bits(n, w)[..p.len];
  }

  /** The corrected "orlonger" mask picks a row exactly when the trie's
      "orlonger" update selects its route. */
  lemma WithinHitIff(lib: IpLib, p: Prefix, nh: string, matchd: string, r: Row)
    requires lib.network(r.prefix).Some? && Agrees(r, lib.network(r.prefix).value)
    requires ValidPrefix(p) && matchd != "exact"
    ensures WithinMask(p, nh)(r) == Selects(UpdateSelector(p, WithPrefixLen(lib, p), nh, matchd), RouteOf(r, lib))
  {
    var q := lib.network(r.prefix).value;
    SubnetHitIff(lib, p, nh, matchd, r);
    WithinIffSubnet(r, q, p);
    assert IsSubnetOfPrefix(lib, r.prefix, p) == SubnetOf(q, p);
  }

  /** The rows `lpm_update` picks are the routes the trie's `update_metric`
      selects, in frame order, for both match types. */
  lemma PickedIsTrieSelection(df: seq<Row>, lib: IpLib, p: Prefix, nh: string, matchd: string)
    requires Consistent(df, lib) && Sound(lib) && Canonical(lib) && ValidPrefix(p)
    ensures var text := WithPrefixLen(lib, p);
      (forall r :: r in Picked(df, p, text, nh, matchd) ==> lib.network(r.prefix).Some?) &&
      RoutesOf(Picked(df, p, text, nh, matchd), lib) == Select(RoutesOf(df, lib), UpdateSelector(p, text, nh, matchd))
  {
    var text := WithPrefixLen(lib, p);
    if matchd == "exact" {
      UpdateInSync(df, lib, p, nh, 0, matchd);
      assert Picked(df, p, text, nh, matchd) == SelectedRows(df, lib, p, text, nh, matchd);
    } else {
      var g := Pred(UpdateSelector(p, text, nh, matchd));
      forall r | r in df ensures lib.network(r.prefix).Some? && WithinMask(p, nh)(r) == g(RouteOf(r, lib)) {
        WithinHitIff(lib, p, nh, matchd, r);
      }
      PickRoutes(df, lib, WithinMask(p, nh), g);
    }
  }

  /** The selection after assigning a metric to it is the selection with
      that metric. */
  lemma SelectAfterAssign(s: seq<RouteInfo>, sel: Selector, m: int)
    ensures |Select(Assign(s, sel, m), sel)| == |Select(s, sel)|
    ensures forall i :: 0 <= i < |Select(s, sel)| ==> Select(Assign(s, sel, m), sel)[i] == Select(s, sel)[i].(metric := m)
  {
    PredIgnoresMetric(sel);
    FilterAssign(s, Pred(sel), Pred(sel), m);
    forall i | 0 <= i < |Select(s, sel)| ensures Pred(sel)(Select(s, sel)[i]) {
      FilterMembers(s, Pred(sel), Select(s, sel)[i]);
    }
  }

  /** Setting the metric column of rows sets the metric of their routes. */
  lemma RoutesWithMetric(rows: seq<Row>, lib: IpLib, m: int)
    requires forall r :: r in rows ==> lib.network(r.prefix).Some?
    ensures forall r :: r in WithMetric(rows, m) ==> lib.network(r.prefix).Some?
    ensures forall i :: 0 <= i < |rows| ==> RoutesOf(WithMetric(rows, m), lib)[i] == RoutesOf(rows, lib)[i].(metric := m)
  {
    var out := WithMetric(rows, m);
    forall r | r in out ensures lib.network(r.prefix).Some? {
      var i :| 0 <= i < |out| && out[i] == r;
      assert rows[i] in rows;
    }
    forall i | 0 <= i < |rows| ensures RoutesOf(out, lib)[i] == RoutesOf(rows, lib)[i].(metric := m) {
      assert rows[i] in rows;
    }
  }

  /** The frame `lpm_update` returns holds exactly the routes the trie's
      `update_metric` rewrote, as they are after the update. */
  lemma LpmUpdateIsTrieUpdate(df: seq<Row>, lib: IpLib, p: Prefix, nh: string, metric: int, matchd: string)
    requires Consistent(df, lib) && Sound(lib) && Canonical(lib) && ValidPrefix(p)
    ensures var text := WithPrefixLen(lib, p);
      var sel := UpdateSelector(p, text, nh, matchd);
      (forall r :: r in LpmUpdate(df, p, text, nh, metric, matchd) ==> lib.network(r.prefix).Some?) &&
      RoutesOf(LpmUpdate(df, p, text, nh, metric, matchd), lib) == Select(Assign(RoutesOf(df, lib), sel, metric), sel)
  {
    var text := WithPrefixLen(lib, p);
    var sel := UpdateSelector(p, text, nh, matchd);
    var picked := Picked(df, p, text, nh, matchd);
    PickedIsTrieSelection(df, lib, p, nh, matchd);
    SelectAfterAssign(RoutesOf(df, lib), sel, metric);
    RoutesWithMetric(picked, lib, metric);
  }

  /** The row the loader writes for network `q` with prefix text `text`,
      next hop `nh`, the largest metric and `nhn` 0. */
  function RowFor(text: string, q: Prefix, nh: string): (r: Row)
    requires ValidPrefix(q)
    ensures Agrees(r, q) && r.prefix == text && r.nextHop == nh
  {
    Row(text, nh, Version(q.family), Format(q.net, HexLen(q.family)), q.len, MxMetric, 0,
        Format(Mask(Width(q.family), q.len), HexLen(q.family)))
  }

  /** Picking from a single row keeps it exactly when the test holds. */
  lemma PickOne(row: Row, f: Row -> bool)
    ensures Pick([row], f) == if f(row) then [row] else []
  {
    assert [row][1..] == [];
  }

  /** On the single row of network `q`, `lpm_update` as written picks it
      exactly when it covers the prefix's network address and is not a
      default route. */
  lemma OneRowAsWritten(text: string, q: Prefix, p: Prefix, ptext: string, nh: string)
    requires ValidPrefix(q) && ValidPrefix(p)
    ensures PickedAsWritten([RowFor(text, q, nh)], p, ptext, nh, "orlonger") ==
      if q.len != 0 && Contains(q, NetworkAddress(p)) then [RowFor(text, q, nh)] else []
  {
    var row := RowFor(text, q, nh);
    var a := NetworkAddress(p);
    OrlongerAsWrittenIff([row], p, ptext, nh, "orlonger", row, q);
    PickOne(row, (r: Row) => WidthMatch(r, a));
    PickOne(row, CoveringMask(nh));
  }

  /** On the single row of network `q`, the corrected `lpm_update` picks it
      exactly when `q` is a subnet of the prefix. */
  lemma OneRowCorrected(text: string, q: Prefix, p: Prefix, ptext: string, nh: string)
    requires ValidPrefix(q) && ValidPrefix(p)
    ensures Picked([RowFor(text, q, nh)], p, ptext, nh, "orlonger") ==
      if SubnetOf(q, p) then [RowFor(text, q, nh)] else []
  {
    var row := RowFor(text, q, nh);
    WithinIffSubnet(row, q, p);
    PickOne(row, WithinMask(p, nh));
  }

  /** The trie's "orlonger" update selects the route of network `q` with the
      update's next hop exactly when `q` is a subnet of the prefix. */
  lemma OneRouteSelected(text: string, q: Prefix, p: Prefix, ptext: string, nh: string)
    requires ValidPrefix(q) && ValidPrefix(p)
    ensures Selects(UpdateSelector(p, ptext, nh, "orlonger"), RouteInfo(text, q, nh, MxMetric, 0)) <==> SubnetOf(q, p)
  {
    SubnetIffBelow(q, p);
  }

  /** A route within the prefix that does not cover the prefix's network
      address is selected by the trie's "orlonger" update and by the
      corrected `lpm_update`, and missed by `lpm_update` as written. */
  lemma OrlongerMissesWhen(text: string, q: Prefix, p: Prefix, ptext: string, nh: string)
    requires ValidPrefix(q) && ValidPrefix(p) && SubnetOf(q, p) && !Contains(q, NetworkAddress(p))
    ensures var row := RowFor(text, q, nh);
      Selects(UpdateSelector(p, ptext, nh, "orlonger"), RouteInfo(text, q, nh, MxMetric, 0)) &&
      PickedAsWritten([row], p, ptext, nh, "orlonger") == [] &&
      Picked([row], p, ptext, nh, "orlonger") == [row]
  {
    OneRowAsWritten(text, q, p, ptext, nh);
    OneRowCorrected(text, q, p, ptext, nh);
    OneRouteSelected(text, q, p, ptext, nh);
  }

  /** A route covering the prefix's network address but wider than the
      prefix is taken by `lpm_update` as written, while neither the trie's
      "orlonger" update nor the corrected `lpm_update` selects it. */
  lemma OrlongerTakesWhen(text: string, q: Prefix, p: Prefix, ptext: string, nh: string)
    requires ValidPrefix(q) && ValidPrefix(p) && q.len != 0 && q.len < p.len && Contains(q, NetworkAddress(p))
    ensures var row := RowFor(text, q, nh);
      !Selects(UpdateSelector(p, ptext, nh, "orlonger"), RouteInfo(text, q, nh, MxMetric, 0)) &&
      PickedAsWritten([row], p, ptext, nh, "orlonger") == [row] &&
      Picked([row], p, ptext, nh, "orlonger") == []
  {
    OneRowAsWritten(text, q, p, ptext, nh);
    OneRowCorrected(text, q, p, ptext, nh);
    OneRouteSelected(text, q, p, ptext, nh);
  }

  lemma Pow2Literals()
    ensures Pow2(8) == 0x100 && Pow2(16) == 0x1_0000 && Pow2(24) == 0x100_0000 && Pow2(32) == 0x1_0000_0000
  {
    assert Pow2(4) == 16;
    assert Pow2(8) == 0x100;
    Pow2Add(8, 8);
    Pow2Add(16, 8);
    Pow2Add(16, 16);
  }

  /** As written, "orlonger" misses a subnet: for the update of
      192.168.0.0/16 via 10.0.0.1, the route 192.168.1.0/24 via 10.0.0.1 lies
      within the prefix and the trie updates it, but it does not cover
      192.168.0.0, so `lpm_update` does not return it. */
  lemma OrlongerMissesSubnet()
    ensures var q := Prefix(V4, 0xc0a8_0100, 24);
      var p := Prefix(V4, 0xc0a8_0000, 16);
      ValidPrefix(q) && ValidPrefix(p) && SubnetOf(q, p) &&
      var row := RowFor("192.168.1.0/24", q, "10.0.0.1");
      Selects(UpdateSelector(p, "192.168.0.0/16", "10.0.0.1", "orlonger"), RouteInfo("192.168.1.0/24", q, "10.0.0.1", MxMetric, 0)) &&
      PickedAsWritten([row], p, "192.168.0.0/16", "10.0.0.1", "orlonger") == [] &&
      Picked([row], p, "192.168.0.0/16", "10.0.0.1", "orlonger") == [row]
  {
    var q := Prefix(V4, 0xc0a8_0100, 24);
    var p := Prefix(V4, 0xc0a8_0000, 16);
    Pow2Literals();
    assert ValidPrefix(q) && ValidPrefix(p);
    assert SubnetOf(q, p) by {
      assert Shr(q.net, 16) == 0xc0a8 == Shr(p.net, 16);
    }
    assert !Contains(q, NetworkAddress(p)) by {
      SamePathIff(q.net, p.net, 32, 24);
      assert Shr(q.net, 8) == 0xc0_a801 && Shr(p.net, 8) == 0xc0_a800;
    }
    OrlongerMissesWhen("192.168.1.0/24", q, p, "192.168.0.0/16", "10.0.0.1");
  }

  /** As written, "orlonger" takes a supernet: for the update of
      10.1.0.0/16 via 10.0.0.1, the route 10.0.0.0/8 via 10.0.0.1 covers
      10.1.0.0 and `lpm_update` returns it, but it is wider than the prefix
      and the trie leaves it alone. */
  lemma OrlongerTakesSupernet()
    ensures var q := Prefix(V4, 0x0a00_0000, 8);
      var p := Prefix(V4, 0x0a01_0000, 16);
      ValidPrefix(q) && ValidPrefix(p) && Contains(q, NetworkAddress(p)) &&
      var row := RowFor("10.0.0.0/8", q, "10.0.0.1");
      !Selects(UpdateSelector(p, "10.1.0.0/16", "10.0.0.1", "orlonger"), RouteInfo("10.0.0.0/8", q, "10.0.0.1", MxMetric, 0)) &&
      PickedAsWritten([row], p, "10.1.0.0/16", "10.0.0.1", "orlonger") == [row] &&
      Picked([row], p, "10.1.0.0/16", "10.0.0.1", "orlonger") == []
  {
    var q := Prefix(V4, 0x0a00_0000, 8);
    var p := Prefix(V4, 0x0a01_0000, 16);
    Pow2Literals();
    assert ValidPrefix(q) && ValidPrefix(p);
    assert Contains(q, NetworkAddress(p)) by {
      SamePathIff(q.net, p.net, 32, 8);
      assert Shr(q.net, 24) == 0x0a == Shr(p.net, 24);
    }
    OrlongerTakesWhen("10.0.0.0/8", q, p, "10.1.0.0/16", "10.0.0.1");
  }

  // ---------------------------------------------------------------------
  // __prep_df: nhn normalisation

  /** `df.loc[df.v == v, "nhn"].min()`: nothing when the frame holds no row
      of version `v`, otherwise the least `nhn` among those rows. */
  function MinNhn(rows: seq<Row>, v: nat): (m: Option<nat>)
    ensures m.None? <==> forall r :: r in rows ==> r.v != v
    ensures m.Some? ==> exists r :: r in rows && r.v == v && r.nhn == m.value
    ensures m.Some? ==> forall r :: r in rows && r.v == v ==> m.value <= r.nhn
  {
    if rows == [] then None
    else
      var init, last := rows[..|rows| - 1], rows[|rows| - 1];
      assert rows == init + [last];
      var m := MinNhn(init, v);
      if last.v != v then m
      else if m.Some? && m.value <= last.nhn then m
      else Some(last.nhn)
  }

  /** One row after `nhn -= m` on the rows of version `v`. */
  function Lowered(r: Row, v: nat, m: nat): Row
    requires r.v == v ==> m <= r.nhn
  {
    if r.v == v then r.(nhn := r.nhn - m) else r
  }

  /** `nhn -= min` on the rows of version `v`: each of them loses the least
      `nhn` of the family, which keeps every `nhn` non-negative; every other
      column and every other row is left alone. */
  function Normalised(rows: seq<Row>, v: nat): (out: seq<Row>)
    ensures |out| == |rows|
    ensures forall i :: 0 <= i < |rows| ==> out[i] == rows[i].(nhn := out[i].nhn)
    ensures forall i :: 0 <= i < |rows| && rows[i].v != v ==> out[i] == rows[i]
  {
    match MinNhn(rows, v)
    case None => rows
    case Some(m) =>
      seq(|rows|, i requires 0 <= i < |rows| => (assert rows[i] in rows; Lowered(rows[i], v, m)))
  }

  /** Normalising keeps the differences between the `nhn` of the family's
      rows, and so their order. */
  lemma NormalisedKeepsOrder(rows: seq<Row>, v: nat, i: nat, j: nat)
    requires i < |rows| && j < |rows| && rows[i].v == v && rows[j].v == v
    ensures var out := Normalised(rows, v);
      out[i].nhn - out[j].nhn == rows[i].nhn - rows[j].nhn &&
      (out[i].nhn <= out[j].nhn <==> rows[i].nhn <= rows[j].nhn)
  {
    assert rows[i] in rows && rows[j] in rows;
  }

  /** After normalising a family its least `nhn` is 0 (and there is still
      none when the family has no rows). */
  lemma NormalisedMin(rows: seq<Row>, v: nat)
    ensures MinNhn(Normalised(rows, v), v) == if MinNhn(rows, v).None? then None else Some(0)
  {
    var n := Normalised(rows, v);
    if MinNhn(rows, v).Some? {
      var r :| r in rows && r.v == v && r.nhn == MinNhn(rows, v).value;
      var k :| 0 <= k < |rows| && rows[k] == r;
      assert n[k] in n && n[k].v == v && n[k].nhn == 0;
      var x := MinNhn(n, v);
      assert x.Some?;
      assert x.value <= n[k].nhn;
      var y :| y in n && y.v == v && y.nhn == x.value;
      assert x.value == 0;
      assert x == Some(0);
    } else {
      assert n == rows;
      assert MinNhn(n, v) == None;
    }
  }

  /** Normalising twice is normalising once. */
  lemma NormalisedIdempotent(rows: seq<Row>, v: nat)
    ensures Normalised(Normalised(rows, v), v) == Normalised(rows, v)
  {
    var n := Normalised(rows, v);
    NormalisedMin(rows, v);
    var nn := Normalised(n, v);
    forall i | 0 <= i < |n| ensures nn[i] == n[i] {
      if n[i].v == v {
        assert n[i] in n;
      }
    }
  }

  /** Two frames with the same rows of version `u` have the same minimum
      for `u`. */
  lemma MinNhnAgree(a: seq<Row>, b: seq<Row>, u: nat)
    requires forall r :: (r in a && r.v == u) <==> (r in b && r.v == u)
    ensures MinNhn(a, u) == MinNhn(b, u)
  {
    if MinNhn(a, u).Some? {
      var x :| x in a && x.v == u && x.nhn == MinNhn(a, u).value;
      var y :| y in b && y.v == u && y.nhn == MinNhn(b, u).value;
      assert y in a && x in b;
    }
  }

  /** Normalising one family leaves the minimum of every other family as it
      was. */
  lemma NormalisedOtherMin(rows: seq<Row>, v: nat, u: nat)
    requires u != v
    ensures MinNhn(Normalised(rows, v), u) == MinNhn(rows, u)
  {
    var n := Normalised(rows, v);
    forall r ensures (r in n && r.v == u) <==> (r in rows && r.v == u) {
      if r in n && r.v == u {
        var i :| 0 <= i < |n| && n[i] == r;
        assert rows[i] == r;
      }
      if r in rows && r.v == u {
        var i :| 0 <= i < |rows| && rows[i] == r;
        assert n[i] == r;
      }
    }
    MinNhnAgree(n, rows, u);
  }

  /** `__prep_df` on one chunk: the per-row arithmetic of `prep_df`, then
      the IPv4 and the IPv6 `nhn` normalisation; nothing when a row's text
      does not parse. */
  function PrepChunkSpec(df: seq<Loaded>, lib: IpLib): Option<seq<Row>> {
    match PrepDf(df, lib)
    case None => None
    case Some(rows) => Some(Normalised(Normalised(rows, 4), 6))
  }

  /** After `__prep_df` the least `nhn` of each family present is 0, and a
      family that is absent stays absent. */
  lemma PrepChunkMinZero(df: seq<Loaded>, lib: IpLib)
    requires PrepChunkSpec(df, lib).Some?
    ensures var rows, out := PrepDf(df, lib).value, PrepChunkSpec(df, lib).value;
      MinNhn(out, 4) == (if MinNhn(rows, 4).None? then None else Some(0)) &&
      MinNhn(out, 6) == (if MinNhn(rows, 6).None? then None else Some(0))
  {
    var rows := PrepDf(df, lib).value;
    var n4 := Normalised(rows, 4);
    NormalisedMin(rows, 4);
    NormalisedOtherMin(n4, 6, 4);
    NormalisedOtherMin(rows, 4, 6);
    NormalisedMin(n4, 6);
  }

  /** `df.loc[df.v == v, "nhn"].min()` over a frame: one pass keeping the
      least `nhn` seen among the family's rows. */
  method FamilyMin(frame: array<Row>, v: nat) returns (m: Option<nat>)
    ensures m == MinNhn(frame[..], v)
  {
    m := None;
    var i := 0;
    while i < frame.Length
      invariant 0 <= i <= frame.Length
      invariant m == MinNhn(frame[..i], v)
    {
      var r := frame[i];
      assert frame[..i + 1][..i] == frame[..i];
      if r.v == v && (m.None? || r.nhn < m.value) {
        m := Some(r.nhn);
      }
      i := i + 1;
    }
    assert frame[..] == frame[..frame.Length];
  }

  /** `df.loc[df.v == v, "nhn"] -= m`, in place. */
  method Subtract(frame: array<Row>, v: nat, m: nat)
    requires forall j :: 0 <= j < frame.Length && frame[j].v == v ==> m <= frame[j].nhn
    modifies frame
    ensures forall j :: 0 <= j < frame.Length ==> frame[j] == Lowered(old(frame[j]), v, m)
  {
    var k := 0;
    while k < frame.Length
      invariant 0 <= k <= frame.Length
      invariant forall j :: 0 <= j < k ==> frame[j] == Lowered(old(frame[j]), v, m)
      invariant forall j :: k <= j < frame.Length ==> frame[j] == old(frame[j])
    {
      var r := frame[k];
      if r.v == v {
        frame[k] := r.(nhn := r.nhn - m);
      }
      k := k + 1;
    }
  }

  /** `nhn -= min` on the rows of version `v` of a frame, in place, when
      the family has rows at all. */
  method NormaliseNhn(frame: array<Row>, v: nat)
    modifies frame
    ensures frame[..] == Normalised(old(frame[..]), v)
  {
    var m := FamilyMin(frame, v);
    if m.Some? {
      forall j | 0 <= j < frame.Length && frame[j].v == v ensures m.value <= frame[j].nhn {
        assert frame[..][j] in frame[..];
      }
      Subtract(frame, v, m.value);
      assert forall j :: 0 <= j < frame.Length ==> frame[..][j] == Normalised(old(frame[..]), v)[j];
    }
  }

  /** `__prep_df` on one chunk, normalising the frame's columns in place. */
  method PrepChunk(df: seq<Loaded>, lib: IpLib) returns (frame: Option<seq<Row>>)
    ensures frame == PrepChunkSpec(df, lib)
  {
    var rows := PrepDf(df, lib);
    if rows.None? {
      frame := None;
    } else {
      var a := new Row[|rows.value|](i requires 0 <= i < |rows.value| => rows.value[i]);
      assert a[..] == rows.value;
      NormaliseNhn(a, 4);
      NormaliseNhn(a, 6);
      frame := Some(a[..]);
    }
  }
}
