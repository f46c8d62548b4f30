/** The routing service of `service/main.py`: the route frame and the trie
    it keeps in step, the best-route rule, the lookup memo, the metric
    update endpoints and the health rule. HTTP, logging, metrics and the
    lock are not modelled; each endpoint is a method returning the reply
    it would send. */
module Service {
  import opened AddrMath
  import opened Routes
  import opened Radix
  import opened Table

  // ---------------------------------------------------------------------
  // The best route

  /** The sort key `(-prefix_len, metric, nhn)` puts `r` no later than `s`:
      longer prefix first, then lower metric, then lower next hop. */
  predicate KeyLe(r: RouteInfo, s: RouteInfo) {
    r.network.len > s.network.len ||
    (r.network.len == s.network.len &&
     (r.metric < s.metric || (r.metric == s.metric && r.nhn <= s.nhn)))
  }

  /** The position of `sorted(routes, key=...)[0]`: a route whose key is
      least, and the first such one, since the sort is stable. */
  function BestIndex(routes: seq<RouteInfo>): (k: nat)
    requires routes != []
    ensures k < |routes|
    ensures forall j :: 0 <= j < |routes| ==> KeyLe(routes[k], routes[j])
    ensures forall j :: 0 <= j < k ==> !KeyLe(routes[j], routes[k])
  {
    if |routes| == 1 then 0
    else
      var k := BestIndex(routes[..|routes| - 1]);
      if KeyLe(routes[k], routes[|routes| - 1]) then k else |routes| - 1
  }

  /** The two properties of `BestIndex` leave no other choice. */
  lemma BestIndexUnique(routes: seq<RouteInfo>, k: nat)
    requires k < |routes|
    requires forall j :: 0 <= j < |routes| ==> KeyLe(routes[k], routes[j])
    requires forall j :: 0 <= j < k ==> !KeyLe(routes[j], routes[k])
    ensures k == BestIndex(routes)
  {
    var b := BestIndex(routes);
    assert KeyLe(routes[k], routes[b]);
    assert KeyLe(routes[b], routes[k]);
  }

  function Best(routes: seq<RouteInfo>): RouteInfo
    requires routes != []
  {
    routes[BestIndex(routes)]
  }

  /** What `cached_radix_lookup` keeps of the winner. */
  datatype Hit = Hit(prefix: string, nextHop: string, metric: int)

  /** `cached_radix_lookup` on the list `lookup` returned: None for an
      empty list, otherwise the winner's prefix, next hop and metric. */
  function Choose(routes: seq<RouteInfo>): (h: Option<Hit>)
    ensures h.None? <==> routes == []
  {
    if routes == [] then None
    else
      var b := Best(routes);
      Some(Hit(b.prefix, b.nextHop, b.metric))
  }

  /** The routes a lookup collects are exactly the stored routes whose
      network contains the address. */
  lemma CollectMembers(s: seq<RouteInfo>, a: Addr, r: RouteInfo)
    ensures r in Collect(s, a, 0) <==> r in s && Contains(r.network, a)
  {
    CollectAll(s, a);
    assert r in Collect(s, a, 0) <==> r in multiset(Collect(s, a, 0));
    assert r in Select(s, Covers(a)) <==> r in multiset(Select(s, Covers(a)));
    FilterMembers(s, Pred(Covers(a)), r);
    CoversIff(r, a);
  }

  /** The route the memo remembers: none exactly when no stored route
      covers the address, otherwise a covering route whose key is minimal
      among all covering routes. */
  lemma ChooseCovering(s: seq<RouteInfo>, a: Addr)
    ensures Choose(Collect(s, a, 0)).None? <==> Select(s, Covers(a)) == []
    ensures Collect(s, a, 0) != [] ==>
      var b := Best(Collect(s, a, 0));
      b in s && Contains(b.network, a) &&
      forall r :: r in s && Contains(r.network, a) ==> KeyLe(b, r)
  {
    NoMatchIff(s, a);
    var c := Collect(s, a, 0);
    if c != [] {
      var b := Best(c);
      CollectMembers(s, a, b);
      forall r | r in s && Contains(r.network, a)
        ensures KeyLe(b, r)
      {
        CollectMembers(s, a, r);
        var j :| 0 <= j < |c| && c[j] == r;
      }
    }
  }

  // ---------------------------------------------------------------------
  // `lpm_update` on the frame

  /** `df.filter(mask)`: the rows satisfying `f`, in frame order. */
  function Pick(rows: seq<Row>, f: Row -> bool): (r: seq<Row>)
    ensures forall x :: x in r <==> x in rows && f(x)
  {
    if rows == [] then []
    else
      assert rows == [rows[0]] + rows[1..];
      (if f(rows[0]) then [rows[0]] else []) + Pick(rows[1..], f)
  }

  /** `pl.when(mask).then(pl.lit(metric)).otherwise(pl.col("metric"))`. */
  function SetMetricWhere(rows: seq<Row>, f: Row -> bool, m: int): (r: seq<Row>)
    ensures |r| == |rows|
    ensures forall i :: 0 <= i < |rows| ==> r[i] == if f(rows[i]) then rows[i].(metric := m) else rows[i]
  {
    seq(|rows|, i requires 0 <= i < |rows| => if f(rows[i]) then rows[i].(metric := m) else rows[i])
  }

  /** The "exact" mask: next hop and prefix text both equal. */
  function ExactMask(text: string, nh: string): Row -> bool {
    (r: Row) => r.nextHop == nh && r.prefix == text
  }

  /** `is_subnet_of_prefix`: the route's text parses, to a network of the
      same version, at least as long, that is a subnet of `p`. */
  predicate IsSubnetOfPrefix(lib: IpLib, routePrefix: string, p: Prefix) {
    match lib.network(routePrefix)
    case None => false
    case Some(q) => !(q.family != p.family || q.len < p.len) && SubnetOf(q, p)
  }

  /** The "orlonger" candidates: next hop equal and same version. */
  function CandidateMask(p: Prefix, nh: string): Row -> bool {
    (r: Row) => r.nextHop == nh && r.v == Version(p.family)
  }

  /** `matching_prefixes`: the prefix texts of the candidates that are
      subnets of `p`. */
  function Matching(candidates: seq<Row>, lib: IpLib, p: Prefix): set<string> {
    set r | r in candidates && IsSubnetOfPrefix(lib, r.prefix, p) :: r.prefix
  }

  function InMatching(matching: set<string>): Row -> bool {
    (r: Row) => r.prefix in matching
  }

  /** The "orlonger" update mask: next hop equal and prefix text matched. */
  function OrlongerMask(nh: string, matching: set<string>): Row -> bool {
    (r: Row) => r.nextHop == nh && r.prefix in matching
  }

  /** The whole frame `lpm_update` returns: the metric rewritten on the
      matched rows. */
  function UpdatedRows(df: seq<Row>, lib: IpLib, p: Prefix, text: string, nh: string, metric: int,
                       matchd: string): seq<Row>
  {
    if matchd == "exact" then SetMetricWhere(df, ExactMask(text, nh), metric)
    else
      var matching := Matching(Pick(df, CandidateMask(p, nh)), lib, p);
      if matching == {} then df else SetMetricWhere(df, OrlongerMask(nh, matching), metric)
  }

  /** The matched rows `lpm_update` returns. */
  function SelectedRows(df: seq<Row>, lib: IpLib, p: Prefix, text: string, nh: string, matchd: string): seq<Row> {
    if matchd == "exact" then Pick(df, ExactMask(text, nh))
    else
      var candidates := Pick(df, CandidateMask(p, nh));
      var matching := Matching(candidates, lib, p);
      if matching == {} then [] else Pick(candidates, InMatching(matching))
  }

  /** The loop of `lpm_update` that gathers `matching_prefixes`. */
  method MatchingPrefixes(candidates: seq<Row>, lib: IpLib, p: Prefix) returns (matching: set<string>)
    ensures matching == Matching(candidates, lib, p)
  {
    matching := {};
    var i := 0;
    while i < |candidates|
      invariant 0 <= i <= |candidates|
      invariant matching == Matching(candidates[..i], lib, p)
    {
      MatchingStep(candidates, i, lib, p);
      if IsSubnetOfPrefix(lib, candidates[i].prefix, p) {
        matching := matching + {candidates[i].prefix};
      }
      i := i + 1;
    }
    assert candidates[..i] == candidates;
  }

  lemma MatchingStep(candidates: seq<Row>, i: nat, lib: IpLib, p: Prefix)
    requires i < |candidates|
    ensures Matching(candidates[..i + 1], lib, p) ==
      Matching(candidates[..i], lib, p) + (if IsSubnetOfPrefix(lib, candidates[i].prefix, p) then {candidates[i].prefix} else {})
  {
    assert candidates[..i + 1] == candidates[..i] + [candidates[i]];
  }

  // ---------------------------------------------------------------------
  // The frame and the trie stay in step

  /** What the update masks need to know of a row: its prefix text parses
      to a valid network whose version the row records. */
  predicate Parsed(r: Row, lib: IpLib) {
    lib.network(r.prefix).Some? && ValidPrefix(lib.network(r.prefix).value) &&
    r.v == Version(lib.network(r.prefix).value.family)
  }

  lemma ConsistentParsed(rows: seq<Row>, lib: IpLib)
    requires Consistent(rows, lib)
    ensures forall r :: r in rows ==> Parsed(r, lib)
  {
  }

  /** A row the "exact" mask matches is a route the trie's "exact" update
      selects, and conversely. */
  lemma ExactHitIff(lib: IpLib, p: Prefix, nh: string, r: Row)
    requires Parsed(r, lib) && Canonical(lib) && ValidPrefix(p)
    ensures ExactMask(WithPrefixLen(lib, p), nh)(r) ==
            Selects(UpdateSelector(p, WithPrefixLen(lib, p), nh, "exact"), RouteOf(r, lib))
  {
    var text := WithPrefixLen(lib, p);
    var route := RouteOf(r, lib);
    assert Selects(UpdateSelector(p, text, nh, "exact"), route) ==
      (Selects(AtPath(PathOf(p)), route) && Selects(NextHop(nh), route) && Selects(PrefixText(text), route));
    if r.prefix == text {
      assert Net(lib, text) == Some(p);
      assert route.network == p;
    }
  }

  /** The trie's "orlonger" update selects a row's route exactly when the
      next hop is equal and `is_subnet_of_prefix` holds of its text; a
      subnet has the version of the prefix. */
  lemma SubnetHitIff(lib: IpLib, p: Prefix, nh: string, matchd: string, r: Row)
    requires Parsed(r, lib) && ValidPrefix(p) && matchd != "exact"
    ensures Selects(UpdateSelector(p, WithPrefixLen(lib, p), nh, matchd), RouteOf(r, lib)) ==
            (r.nextHop == nh && IsSubnetOfPrefix(lib, r.prefix, p))
    ensures IsSubnetOfPrefix(lib, r.prefix, p) ==> r.v == Version(p.family)
  {
    var q := lib.network(r.prefix).value;
    var route := RouteOf(r, lib);
    assert route.network == q;
    SubnetIffBelow(q, p);
    assert Selects(UpdateSelector(p, WithPrefixLen(lib, p), nh, matchd), route) ==
      (Selects(Below(PathOf(p)), route) && Selects(NextHop(nh), route));
    assert IsSubnetOfPrefix(lib, r.prefix, p) == SubnetOf(q, p);
  }

  /** A row's text is among `matching_prefixes` exactly when it is a
      subnet of the prefix, for a row with the next hop asked for. */
  lemma MatchingIff(df: seq<Row>, lib: IpLib, p: Prefix, nh: string, r: Row)
    requires r in df && r.nextHop == nh && Parsed(r, lib) && ValidPrefix(p)
    ensures (r.prefix in Matching(Pick(df, CandidateMask(p, nh)), lib, p)) == IsSubnetOfPrefix(lib, r.prefix, p)
  {
    var candidates := Pick(df, CandidateMask(p, nh));
    if r.prefix in Matching(candidates, lib, p) {
      var c :| c in candidates && IsSubnetOfPrefix(lib, c.prefix, p) && c.prefix == r.prefix;
    }
    if IsSubnetOfPrefix(lib, r.prefix, p) {
      SubnetHitIff(lib, p, nh, "orlonger", r);
      assert r in candidates;
    }
  }

  /** A row the "orlonger" mask matches is a route the trie's "orlonger"
      update selects (same next hop, in the subtree of the prefix), and
      conversely; so is a candidate whose text was matched. */
  lemma OrlongerHitIff(df: seq<Row>, lib: IpLib, p: Prefix, nh: string, matchd: string, r: Row)
    requires r in df && Parsed(r, lib) && ValidPrefix(p) && matchd != "exact"
    ensures var matching := Matching(Pick(df, CandidateMask(p, nh)), lib, p);
      var hit := Selects(UpdateSelector(p, WithPrefixLen(lib, p), nh, matchd), RouteOf(r, lib));
      OrlongerMask(nh, matching)(r) == hit &&
      (CandidateMask(p, nh)(r) && InMatching(matching)(r)) == hit
  {
    SubnetHitIff(lib, p, nh, matchd, r);
    if r.nextHop == nh {
      MatchingIff(df, lib, p, nh, r);
    }
  }

  lemma {:induction false} RoutesOfAppend(xs: seq<Row>, ys: seq<Row>, lib: IpLib)
    requires forall r :: r in xs + ys ==> lib.network(r.prefix).Some?
    ensures forall r :: r in xs ==> lib.network(r.prefix).Some?
    ensures forall r :: r in ys ==> lib.network(r.prefix).Some?
    ensures RoutesOf(xs + ys, lib) == RoutesOf(xs, lib) + RoutesOf(ys, lib)
  {
    assert forall r :: r in xs ==> r in xs + ys;
    assert forall r :: r in ys ==> r in xs + ys;
  }

  /** Picking rows by a mask that agrees with a route predicate picks the
      routes that predicate keeps. */
  lemma {:induction false} PickRoutes(rows: seq<Row>, lib: IpLib, f: Row -> bool, g: RouteInfo -> bool)
    requires forall r :: r in rows ==> lib.network(r.prefix).Some? && f(r) == g(RouteOf(r, lib))
    ensures forall r :: r in Pick(rows, f) ==> lib.network(r.prefix).Some?
    ensures RoutesOf(Pick(rows, f), lib) == Filter(RoutesOf(rows, lib), g)
  {
    if rows != [] {
      var x, rest := rows[0], rows[1..];
      assert rows == [x] + rest;
      assert forall r :: r in rest ==> r in rows;
      var head := if f(x) then [x] else [];
      PickRoutes(rest, lib, f, g);
      var all := RoutesOf(rows, lib);
      RoutesOfAppend(head, Pick(rest, f), lib);
      RoutesOfAppend([x], rest, lib);
      assert all[0] == RouteOf(x, lib);
      assert all[1..] == RoutesOf(rest, lib);
      assert RoutesOf(head, lib) == if g(all[0]) then [all[0]] else [];
      calc {
        RoutesOf(Pick(rows, f), lib);
        RoutesOf(head + Pick(rest, f), lib);
        RoutesOf(head, lib) + RoutesOf(Pick(rest, f), lib);
        (if g(all[0]) then [all[0]] else []) + Filter(all[1..], g);
        Filter(all, g);
      }
    }
  }

  /** Picking twice is picking by both masks. */
  lemma {:induction false} PickPick(rows: seq<Row>, f: Row -> bool, g: Row -> bool, fg: Row -> bool)
    requires forall r :: r in rows ==> fg(r) == (f(r) && g(r))
    ensures Pick(Pick(rows, f), g) == Pick(rows, fg)
  {
    if rows != [] {
      assert rows == [rows[0]] + rows[1..];
      var head := if f(rows[0]) then [rows[0]] else [];
      PickPick(rows[1..], f, g, fg);
      assert Pick(head + Pick(rows[1..], f), g) == Pick(head, g) + Pick(Pick(rows[1..], f), g) by {
        PickAppend(head, Pick(rows[1..], f), g);
      }
    }
  }

  lemma {:induction false} PickAppend(xs: seq<Row>, ys: seq<Row>, f: Row -> bool)
    ensures Pick(xs + ys, f) == Pick(xs, f) + Pick(ys, f)
  {
    if xs != [] {
      assert (xs + ys)[0] == xs[0];
      assert (xs + ys)[1..] == xs[1..] + ys;
      PickAppend(xs[1..], ys, f);
      var head := if f(xs[0]) then [xs[0]] else [];
      assert Pick(xs + ys, f) == head + (Pick(xs[1..], f) + Pick(ys, f));
      assert Pick(xs, f) == head + Pick(xs[1..], f);
    } else {
      assert xs + ys == ys;
    }
  }

  /** Rewriting metrics keeps every row consistent with its network. */
  lemma SetMetricConsistent(rows: seq<Row>, lib: IpLib, f: Row -> bool, m: int)
    requires Consistent(rows, lib)
    ensures Consistent(SetMetricWhere(rows, f, m), lib)
  {
    var out := SetMetricWhere(rows, f, m);
    forall x | x in out
      ensures lib.network(x.prefix).Some? && Agrees(x, lib.network(x.prefix).value)
    {
      var i :| 0 <= i < |out| && out[i] == x;
      assert rows[i] in rows;
    }
  }

  /** Rewriting the metric of the rows a mask matches rewrites the metric
      of the routes the agreeing predicate selects. */
  lemma SetMetricRoutes(rows: seq<Row>, lib: IpLib, f: Row -> bool, g: RouteInfo -> bool, m: int)
    requires forall r :: r in rows ==> lib.network(r.prefix).Some? && f(r) == g(RouteOf(r, lib))
    ensures forall r :: r in SetMetricWhere(rows, f, m) ==> lib.network(r.prefix).Some?
    ensures RoutesOf(SetMetricWhere(rows, f, m), lib) == AssignIf(RoutesOf(rows, lib), g, m)
  {
    var out := SetMetricWhere(rows, f, m);
    forall x | x in out ensures lib.network(x.prefix).Some? {
      var i :| 0 <= i < |out| && out[i] == x;
      assert rows[i] in rows;
    }
    var before, after := RoutesOf(rows, lib), RoutesOf(out, lib);
    forall i | 0 <= i < |rows|
      ensures after[i] == AssignIf(before, g, m)[i]
    {
      assert rows[i] in rows;
      assert after[i] == RouteOf(out[i], lib);
      assert before[i] == RouteOf(rows[i], lib);
    }
  }

  /** The frame `lpm_update` returns and the trie after `update_metric`
      hold the same routes, and the matched rows are exactly the routes
      the trie updates, in the same order. */
  lemma UpdateInSync(df: seq<Row>, lib: IpLib, p: Prefix, nh: string, metric: int, matchd: string)
    requires Consistent(df, lib) && Sound(lib) && Canonical(lib) && ValidPrefix(p)
    ensures var text := WithPrefixLen(lib, p);
      var sel := UpdateSelector(p, text, nh, matchd);
      var updated := UpdatedRows(df, lib, p, text, nh, metric, matchd);
      Consistent(updated, lib) &&
      RoutesOf(updated, lib) == Assign(RoutesOf(df, lib), sel, metric) &&
      (forall r :: r in SelectedRows(df, lib, p, text, nh, matchd) ==> lib.network(r.prefix).Some?) &&
      RoutesOf(SelectedRows(df, lib, p, text, nh, matchd), lib) == Select(RoutesOf(df, lib), sel)
  {
    var text := WithPrefixLen(lib, p);
    var sel := UpdateSelector(p, text, nh, matchd);
    var g := Pred(sel);
    ConsistentParsed(df, lib);
    if matchd == "exact" {
      var f := ExactMask(text, nh);
      forall r | r in df ensures f(r) == g(RouteOf(r, lib)) {
        ExactHitIff(lib, p, nh, r);
      }
      SetMetricConsistent(df, lib, f, metric);
      SetMetricRoutes(df, lib, f, g, metric);
      PickRoutes(df, lib, f, g);
    } else {
      var candidates := Pick(df, CandidateMask(p, nh));
      var matching := Matching(candidates, lib, p);
      var f := OrlongerMask(nh, matching);
      var both := (r: Row) => CandidateMask(p, nh)(r) && InMatching(matching)(r);
      forall r | r in df ensures f(r) == g(RouteOf(r, lib)) && both(r) == g(RouteOf(r, lib)) {
        OrlongerHitIff(df, lib, p, nh, matchd, r);
      }
      PickRoutes(df, lib, both, g);
      if matching == {} {
        forall i | 0 <= i < |RoutesOf(df, lib)| ensures !g(RoutesOf(df, lib)[i]) {
          assert df[i] in df;
        }
        AssignNone(RoutesOf(df, lib), g, metric);
        FilterNone(RoutesOf(df, lib), g);
      } else {
        SetMetricConsistent(df, lib, f, metric);
        SetMetricRoutes(df, lib, f, g, metric);
        PickPick(df, CandidateMask(p, nh), InMatching(matching), both);
      }
    }
  }

  /** Nothing selected, nothing changed. */
  lemma AssignUnselected(s: seq<RouteInfo>, sel: Selector, m: int)
    requires Select(s, sel) == []
    ensures Assign(s, sel, m) == s
  {
    forall i | 0 <= i < |s| ensures !Pred(sel)(s[i]) {
      FilterMembers(s, Pred(sel), s[i]);
    }
    AssignNone(s, Pred(sel), m);
  }

  /** The frame and the trie agree: the library behaves, every row agrees
      with its network, and the trie holds exactly the routes of the
      frame, in the frame's order. */
  ghost predicate InStep(df: seq<Row>, inserted: seq<RouteInfo>, lib: IpLib) {
    Sound(lib) && Canonical(lib) && Consistent(df, lib) && inserted == RoutesOf(df, lib)
  }

  /** Every memo entry is keyed by an address text and is what a fresh
      lookup of that address would answer. */
  ghost predicate Coherent(inserted: seq<RouteInfo>, cache: map<string, Option<Hit>>, lib: IpLib) {
    forall k :: k in cache ==>
      Address(lib, k).Some? && cache[k] == Choose(Collect(inserted, Address(lib, k).value, 0))
  }

  /** Remembering a fresh answer keeps the memo coherent. */
  lemma Remember(inserted: seq<RouteInfo>, cache: map<string, Option<Hit>>, lib: IpLib, k: string)
    requires Coherent(inserted, cache, lib) && Address(lib, k).Some?
    ensures Coherent(inserted, cache[k := Choose(Collect(inserted, Address(lib, k).value, 0))], lib)
  {
  }

  /** An update keeps the frame and the trie in step, and the number of
      matched rows is the number of routes the trie updates. */
  lemma UpdateKeepsInStep(df: seq<Row>, inserted: seq<RouteInfo>, lib: IpLib,
                          p: Prefix, nh: string, metric: int, matchd: string)
    requires InStep(df, inserted, lib) && ValidPrefix(p)
    ensures var text := WithPrefixLen(lib, p);
      var sel := UpdateSelector(p, text, nh, matchd);
      |SelectedRows(df, lib, p, text, nh, matchd)| == |Select(inserted, sel)| &&
      InStep(UpdatedRows(df, lib, p, text, nh, metric, matchd), Assign(inserted, sel, metric), lib)
  {
    UpdateInSync(df, lib, p, nh, metric, matchd);
  }

  /** An update that matched nothing leaves the trie's routes as they
      were, so the memo stays coherent; an emptied memo is always so. */
  lemma UpdateKeepsCoherent(inserted: seq<RouteInfo>, cache: map<string, Option<Hit>>, lib: IpLib,
                            sel: Selector, metric: int)
    requires Coherent(inserted, cache, lib)
    ensures var n := |Select(inserted, sel)|;
      Coherent(Assign(inserted, sel, metric), if n == 0 then cache else map[], lib)
  {
    if |Select(inserted, sel)| == 0 {
      AssignUnselected(inserted, sel, metric);
    }
  }

  // ---------------------------------------------------------------------
  // `lpm_update` on the frame `get_df_polars` returns

  /** The kinds of frame `lpm_update` may be handed. `service/main.py`
      declares a polars frame, but `get_df_polars` returns the pandas
      frame of `get_df_pandas`. */
  datatype FrameKind = PandasFrame | PolarsFrame

  /** The frame calls `lpm_update` makes before `update_metric`: `filter`
      with a polars expression, reading the `prefix` column, and
      `with_columns`. */
  datatype FrameCall = FilterExpr | PrefixColumn | WithColumns

  /** The calls in order: "exact" filters, then rewrites the metric
      column; "orlonger" filters the candidates and reads their prefixes,
      then, when some prefix matched, filters again and rewrites. */
  function UpdateCalls(matchd: string, matched: bool): seq<FrameCall> {
    if matchd == "exact" then [FilterExpr, WithColumns]
    else if matched then [FilterExpr, PrefixColumn, FilterExpr, WithColumns]
    else [FilterExpr, PrefixColumn]
  }

  /** The calls a frame answers without raising. A pandas frame reads the
      argument of `filter` as a list of column labels, which a polars
      expression is not, and has no `with_columns`. */
  predicate Answers(kind: FrameKind, c: FrameCall) {
    kind == PolarsFrame || c == PrefixColumn
  }

  /** The number of calls the frame answers before the first that raises. */
  function Answered(kind: FrameKind, calls: seq<FrameCall>): (n: nat)
    ensures n <= |calls|
    ensures forall k :: 0 <= k < n ==> Answers(kind, calls[k])
    ensures n < |calls| ==> !Answers(kind, calls[n])
  {
    if calls == [] || !Answers(kind, calls[0]) then 0 else 1 + Answered(kind, calls[1..])
  }

  /** The frame part of `lpm_update` on a frame of the kind: None where a
      call raises, otherwise the updated frame and the matched rows. */
  function FrameUpdate(kind: FrameKind, df: seq<Row>, lib: IpLib, p: Prefix, text: string, nh: string,
                       metric: int, matchd: string): Option<(seq<Row>, seq<Row>)>
  {
    var matched := Matching(Pick(df, CandidateMask(p, nh)), lib, p) != {};
    var calls := UpdateCalls(matchd, matched);
    if Answered(kind, calls) < |calls| then None
    else Some((UpdatedRows(df, lib, p, text, nh, metric, matchd), SelectedRows(df, lib, p, text, nh, matchd)))
  }

  /** As written, the pandas frame raises at the first call of either
      branch, its `filter`, so `lpm_update` raises on every input. A
      polars frame answers every call, and the result is the update the
      rest of the model uses. */
  lemma FrameUpdateAsWritten(df: seq<Row>, lib: IpLib, p: Prefix, text: string, nh: string, metric: int,
                             matchd: string)
    ensures forall matched :: Answered(PandasFrame, UpdateCalls(matchd, matched)) == 0
    ensures forall matched :: Answered(PolarsFrame, UpdateCalls(matchd, matched)) == |UpdateCalls(matchd, matched)|
    ensures FrameUpdate(PandasFrame, df, lib, p, text, nh, metric, matchd) == None
    ensures FrameUpdate(PolarsFrame, df, lib, p, text, nh, metric, matchd) ==
      Some((UpdatedRows(df, lib, p, text, nh, metric, matchd), SelectedRows(df, lib, p, text, nh, matchd)))
  {
  }

  // ---------------------------------------------------------------------
  // The service

  /** The reply of `get_nh`: 400, 404, or the route found. */
  datatype NhReply = BadPrefix | NoRoute | Route(dst: string, nh: string)

  /** The reply of `update` and `update_match`: 400 for each validation
      failure, 404 when no route matched, the number updated, or 500 when
      `lpm_update` raises. */
  datatype UpdateReply = BadMetric | BadMatch | BadAddress | NotFound | Updated(count: nat) | ServerError

  /** The module state of `service/main.py`: the route frame `df`, the trie
      `radix_tree`, the memo of `cached_radix_lookup` (keyed by address
      text), the `ipaddress` library and `settings.max_metric`. */
  class RoutingService {
    var df: seq<Row>
    const tree: RadixTree
    var cache: map<string, Option<Hit>>
    const lib: IpLib
    const maxMetric: int

    /** The service invariant: the trie is well formed and in step with
        the frame and the memo. */
    ghost predicate Valid()
      reads this, tree, tree.Nodes.Values
    {
      tree.Valid() && InStep(df, tree.Inserted, lib) && Coherent(tree.Inserted, cache, lib)
    }

    /** Start-up: the prepared frame, and the trie `build_radix_tree`
        makes from it. */
    constructor(rows: seq<Row>, lib: IpLib, maxMetric: int)
      requires Sound(lib) && Canonical(lib) && Consistent(rows, lib)
      ensures Valid() && fresh(tree) && fresh(tree.Nodes.Values)
      ensures df == rows && cache == map[] && this.lib == lib && this.maxMetric == maxMetric
    {
      var t, ok := BuildRadixTree(rows, lib);
      df := rows;
      tree := t;
      cache := map[];
      this.lib := lib;
      this.maxMetric := maxMetric;
    }

    /** `health`: healthy when the frame and the trie count the same
        routes, which the invariant guarantees. */
    method Health() returns (healthy: bool, routesLoaded: nat, radixRoutes: nat)
      requires Valid()
      ensures routesLoaded == |df| && radixRoutes == tree.routeCount
      ensures healthy <==> routesLoaded == radixRoutes
      ensures healthy
    {
      routesLoaded := |df|;
      radixRoutes := tree.routeCount;
      healthy := routesLoaded == radixRoutes;
    }

    /** `cached_radix_lookup`: answer from the memo, or look up, choose
        and remember. */
    method CachedLookup(ipStr: string) returns (hit: Option<Hit>)
      requires Valid() && Address(lib, ipStr).Some?
      modifies this
      ensures Valid() && df == old(df)
      ensures hit == Choose(Collect(tree.Inserted, Address(lib, ipStr).value, 0))
      ensures cache == old(cache)[ipStr := hit]
    {
      if ipStr !in cache {
        var routes := tree.Lookup(Address(lib, ipStr));
        Remember(tree.Inserted, cache, lib, ipStr);
        cache := cache[ipStr := Choose(routes.value)];
      }
      hit := cache[ipStr];
    }

    /** `get_nh`: a prefix that does not parse is refused; otherwise the
        memo answers for its network address. On a miss the frame
        `lpm_lookup_radix` returns is empty, so the sort after it is never
        reached. */
    method GetNh(prefix: string) returns (reply: NhReply)
      requires Valid()
      modifies this
      ensures Valid() && df == old(df)
      ensures Net(lib, prefix).None? ==> reply == BadPrefix && cache == old(cache)
      ensures Net(lib, prefix).Some? ==>
        var a := NetworkAddress(Net(lib, prefix).value);
        var h := Choose(Collect(tree.Inserted, a, 0));
        cache == old(cache)[AddrText(lib, a) := h] &&
        reply == if h.None? then NoRoute else Route(h.value.prefix, h.value.nextHop)
    {
      var net := Net(lib, prefix);
      if net.None? {
        return BadPrefix;
      }
      var a := NetworkAddress(net.value);
      var ipStr := AddrText(lib, a);
      var cached := CachedLookup(ipStr);
      if cached.Some? {
        return Route(cached.value.prefix, cached.value.nextHop);
      }
      var frame := LpmLookupRadix(tree, ipStr, lib);
      if |frame| == 0 {
        return NoRoute;
      }
      assert false;
    }

    /** `lpm_update`: the new frame and the matched rows, and the trie
        updated with `update_metric` on the prefix's canonical text. */
    method LpmUpdate(frame: seq<Row>, p: Prefix, nh: string, metric: int, matchd: string)
      returns (updated: seq<Row>, selected: seq<Row>)
      requires tree.Valid() && Sound(lib) && Canonical(lib) && ValidPrefix(p)
      modifies tree, tree.Nodes.Values
      ensures updated == UpdatedRows(frame, lib, p, WithPrefixLen(lib, p), nh, metric, matchd)
      ensures selected == SelectedRows(frame, lib, p, WithPrefixLen(lib, p), nh, matchd)
      ensures tree.Valid() && tree.routeCount == old(tree.routeCount)
      ensures tree.Inserted == Assign(old(tree.Inserted), UpdateSelector(p, WithPrefixLen(lib, p), nh, matchd), metric)
    {
      var text := WithPrefixLen(lib, p);
      if matchd == "exact" {
        selected := Pick(frame, ExactMask(text, nh));
        updated := SetMetricWhere(frame, ExactMask(text, nh), metric);
      } else {
        var candidates := Pick(frame, CandidateMask(p, nh));
        var matching := MatchingPrefixes(candidates, lib, p);
        if matching != {} {
          selected := Pick(candidates, InMatching(matching));
          updated := SetMetricWhere(frame, OrlongerMask(nh, matching), metric);
        } else {
          selected := [];
          updated := frame;
        }
      }
      var _ := tree.UpdateMetric(Net(lib, text), text, nh, metric, matchd);
    }

    /** The part `update` and `update_match` share once the input is
        valid: update the frame and the trie, answer 404 when nothing
        matched, otherwise clear the memo and report the count. */
    method ApplyUpdate(p: Prefix, nh: string, metric: int, matchd: string) returns (reply: UpdateReply)
      requires Valid() && ValidPrefix(p)
      modifies this, tree, tree.Nodes.Values
      ensures Valid()
      ensures var sel := UpdateSelector(p, WithPrefixLen(lib, p), nh, matchd);
        var n := |Select(old(tree.Inserted), sel)|;
        tree.Inserted == Assign(old(tree.Inserted), sel, metric) &&
        df == UpdatedRows(old(df), lib, p, WithPrefixLen(lib, p), nh, metric, matchd) &&
        reply == (if n == 0 then NotFound else Updated(n)) &&
        cache == if n == 0 then old(cache) else map[]
    {
      UpdateKeepsInStep(df, tree.Inserted, lib, p, nh, metric, matchd);
      UpdateKeepsCoherent(tree.Inserted, cache, lib, UpdateSelector(p, WithPrefixLen(lib, p), nh, matchd), metric);
      var updated, selected := LpmUpdate(df, p, nh, metric, matchd);
      reply := Commit(updated, |selected|);
    }

    /** The part of `update` and `update_match` after validation, on a
        frame of the kind. Where a frame call inside `lpm_update` raises,
        FastAPI answers 500 before `update_metric` runs and before `df` is
        reassigned, so nothing changes; otherwise as ApplyUpdate. */
    method ApplyUpdateOn(kind: FrameKind, p: Prefix, nh: string, metric: int, matchd: string)
      returns (reply: UpdateReply)
      requires Valid() && ValidPrefix(p)
      modifies this, tree, tree.Nodes.Values
      ensures Valid()
      ensures FrameUpdate(kind, old(df), lib, p, WithPrefixLen(lib, p), nh, metric, matchd).None? ==>
        reply == ServerError && df == old(df) && cache == old(cache) && tree.Inserted == old(tree.Inserted)
      ensures FrameUpdate(kind, old(df), lib, p, WithPrefixLen(lib, p), nh, metric, matchd).Some? ==>
        var sel := UpdateSelector(p, WithPrefixLen(lib, p), nh, matchd);
        var n := |Select(old(tree.Inserted), sel)|;
        tree.Inserted == Assign(old(tree.Inserted), sel, metric) &&
        df == UpdatedRows(old(df), lib, p, WithPrefixLen(lib, p), nh, metric, matchd) &&
        reply == (if n == 0 then NotFound else Updated(n)) &&
        cache == if n == 0 then old(cache) else map[]
    {
      if FrameUpdate(kind, df, lib, p, WithPrefixLen(lib, p), nh, metric, matchd).None? {
        reply := ServerError;
      } else {
        reply := ApplyUpdate(p, nh, metric, matchd);
      }
    }

    /** The end of an update: install the new frame; answer 404 when no
        row matched, otherwise clear the memo and report the count. */
    method Commit(updated: seq<Row>, n: nat) returns (reply: UpdateReply)
      requires tree.Valid() && InStep(updated, tree.Inserted, lib)
      requires Coherent(tree.Inserted, if n == 0 then cache else map[], lib)
      modifies this
      ensures Valid() && df == updated
      ensures reply == (if n == 0 then NotFound else Updated(n))
      ensures cache == if n == 0 then old(cache) else map[]
    {
      df := updated;
      if n == 0 {
        reply := NotFound;
      } else {
        cache := map[];
        reply := Updated(n);
      }
    }

    /** `update`: "orlonger" update after checking the metric range and
        that both the prefix and the next hop parse. */
    method Update(prefix: string, nh: string, metric: int) returns (reply: UpdateReply)
      requires Valid()
      modifies this, tree, tree.Nodes.Values
      ensures Valid()
      ensures !(1 <= metric <= maxMetric) ==>
        reply == BadMetric && df == old(df) && cache == old(cache) && tree.Inserted == old(tree.Inserted)
      ensures 1 <= metric <= maxMetric && (Net(lib, prefix).None? || Net(lib, nh).None?) ==>
        reply == BadAddress && df == old(df) && cache == old(cache) && tree.Inserted == old(tree.Inserted)
      ensures 1 <= metric <= maxMetric && Net(lib, prefix).Some? && Net(lib, nh).Some? ==>
        var p := Net(lib, prefix).value;
        var sel := UpdateSelector(p, WithPrefixLen(lib, p), nh, "orlonger");
        var n := |Select(old(tree.Inserted), sel)|;
        tree.Inserted == Assign(old(tree.Inserted), sel, metric) &&
        df == UpdatedRows(old(df), lib, p, WithPrefixLen(lib, p), nh, metric, "orlonger") &&
        reply == (if n == 0 then NotFound else Updated(n)) &&
        cache == if n == 0 then old(cache) else map[]
    {
      if metric < 1 || metric > maxMetric {
        return BadMetric;
      }
      var prefixIp := Net(lib, prefix);
      var nhIp := Net(lib, nh);
      if prefixIp.None? || nhIp.None? {
        return BadAddress;
      }
      reply := ApplyUpdate(prefixIp.value, nh, metric, "orlonger");
    }

    /** `update_match`: as `update`, with the match type checked after the
        metric and before the addresses. */
    method UpdateMatch(prefix: string, nh: string, metric: int, matchd: string) returns (reply: UpdateReply)
      requires Valid()
      modifies this, tree, tree.Nodes.Values
      ensures Valid()
      ensures !(1 <= metric <= maxMetric) ==>
        reply == BadMetric && df == old(df) && cache == old(cache) && tree.Inserted == old(tree.Inserted)
      ensures 1 <= metric <= maxMetric && matchd != "orlonger" && matchd != "exact" ==>
        reply == BadMatch && df == old(df) && cache == old(cache) && tree.Inserted == old(tree.Inserted)
      ensures 1 <= metric <= maxMetric && (matchd == "orlonger" || matchd == "exact") &&
              (Net(lib, prefix).None? || Net(lib, nh).None?) ==>
        reply == BadAddress && df == old(df) && cache == old(cache) && tree.Inserted == old(tree.Inserted)
      ensures 1 <= metric <= maxMetric && (matchd == "orlonger" || matchd == "exact") &&
              Net(lib, prefix).Some? && Net(lib, nh).Some? ==>
        var p := Net(lib, prefix).value;
        var sel := UpdateSelector(p, WithPrefixLen(lib, p), nh, matchd);
        var n := |Select(old(tree.Inserted), sel)|;
        tree.Inserted == Assign(old(tree.Inserted), sel, metric) &&
        df == UpdatedRows(old(df), lib, p, WithPrefixLen(lib, p), nh, metric, matchd) &&
        reply == (if n == 0 then NotFound else Updated(n)) &&
        cache == if n == 0 then old(cache) else map[]
    {
      if metric < 1 || metric > maxMetric {
        return BadMetric;
      }
      if matchd !in ["orlonger", "exact"] {
        return BadMatch;
      }
      var prefixIp := Net(lib, prefix);
      var nhIp := Net(lib, nh);
      if prefixIp.None? || nhIp.None? {
        return BadAddress;
      }
      reply := ApplyUpdate(prefixIp.value, nh, metric, matchd);
    }
  
    /** `update` as written: validated as in Update, after which
        `lpm_update` raises on the pandas frame, so every valid request
        is answered 500 and nothing changes. */
    method UpdateAsWritten(prefix: string, nh: string, metric: int) returns (reply: UpdateReply)
      requires Valid()
      modifies this, tree, tree.Nodes.Values
      ensures Valid() && df == old(df) && cache == old(cache) && tree.Inserted == old(tree.Inserted)
      ensures reply ==
        if !(1 <= metric <= maxMetric) then BadMetric
        else if Net(lib, prefix).None? || Net(lib, nh).None? then BadAddress
        else ServerError
    {
      if metric < 1 || metric > maxMetric {
        return BadMetric;
      }
      var prefixIp := Net(lib, prefix);
      var nhIp := Net(lib, nh);
      if prefixIp.None? || nhIp.None? {
        return BadAddress;
      }
      var p := prefixIp.value;
      FrameUpdateAsWritten(df, lib, p, WithPrefixLen(lib, p), nh, metric, "orlonger");
      reply := ApplyUpdateOn(PandasFrame, p, nh, metric, "orlonger");
    }

    /** `update_match` as written: validated as in UpdateMatch, after
        which `lpm_update` raises on the pandas frame, so every valid
        request is answered 500 and nothing changes. */
    method UpdateMatchAsWritten(prefix: string, nh: string, metric: int, matchd: string) returns (reply: UpdateReply)
      requires Valid()
      modifies this, tree, tree.Nodes.Values
      ensures Valid() && df == old(df) && cache == old(cache) && tree.Inserted == old(tree.Inserted)
      ensures reply ==
        if !(1 <= metric <= maxMetric) then BadMetric
        else if matchd != "orlonger" && matchd != "exact" then BadMatch
        else if Net(lib, prefix).None? || Net(lib, nh).None? then BadAddress
        else ServerError
    {
      if metric < 1 || metric > maxMetric {
        return BadMetric;
      }
      if matchd !in ["orlonger", "exact"] {
        return BadMatch;
      }
      var prefixIp := Net(lib, prefix);
      var nhIp := Net(lib, nh);
      if prefixIp.None? || nhIp.None? {
        return BadAddress;
      }
      var p := prefixIp.value;
      FrameUpdateAsWritten(df, lib, p, WithPrefixLen(lib, p), nh, metric, matchd);
      reply := ApplyUpdateOn(PandasFrame, p, nh, metric, matchd);
    }
  }
}
