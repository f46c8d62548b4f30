/** Prefixes, addresses and route records, and the specification functions
    the trie is proved against: selecting routes from the sequence of all
    inserted routes, and setting the metric of the selected ones. */
module Routes {
  import opened AddrMath

  datatype Option<T> = None | Some(value: T)

  /** A parsed network (`ipaddress.ip_network`): family, integer network
      address and prefix length. */
  datatype Prefix = Prefix(family: Family, net: nat, len: nat)

  /** A parsed address (`ipaddress.ip_address`). */
  datatype Addr = Addr(family: Family, value: nat)

  /** What the strict `ip_network` constructor accepts: the length fits the
      family, the address fits the width, and no host bit is set. */
  predicate ValidPrefix(p: Prefix) {
    var w := Width(p.family);
    p.len <= w && p.net < Pow2(w) && p.net % Pow2(w - p.len) == 0
  }

  predicate ValidAddr(a: Addr) { a.value < Pow2(Width(a.family)) }

  /** The network address of a prefix, as an address. */
  function NetworkAddress(p: Prefix): Addr { Addr(p.family, p.net) }

  /** A position in one of the two tries: the family selects the root, the
      bits the left (false) / right (true) steps taken from it. */
  datatype Path = Path(family: Family, bits: seq<bool>)

  /** The node a prefix is stored at: the top `len` bits of its network. */
  function PathOf(p: Prefix): Path
    requires p.len <= Width(p.family)
  {
    Path(p.family, Bits(p.net, Width(p.family))[..p.len])
  }

  /** The node reached after `d` steps of a walk along the bits of `a`. */
  function AddrPath(a: Addr, d: nat): Path
    requires d <= Width(a.family)
  {
    Path(a.family, Bits(a.value, Width(a.family))[..d])
  }

  function Root(f: Family): Path { Path(f, []) }

  /** The left (false, bit 0) or right (true, bit 1) child position. */
  function Child(p: Path, b: bool): Path { Path(p.family, p.bits + [b]) }

  /** `q` lies in the subtree rooted at `p`. */
  predicate Extends(q: Path, p: Path) {
    q.family == p.family && |p.bits| <= |q.bits| && q.bits[..|p.bits|] == p.bits
  }

  /** The prefix contains the address: same family and same top `len` bits. */
  predicate Contains(p: Prefix, a: Addr) {
    p.family == a.family && p.len <= Width(p.family) && PathOf(p) == AddrPath(a, p.len)
  }

  lemma ExtendsSelf(p: Path)
    ensures Extends(p, p)
  {
    assert p.bits[..|p.bits|] == p.bits;
  }

  /** The walk of an address passes through the node of every prefix
      containing it. */
  lemma ContainsExtends(p: Prefix, a: Addr, k: nat)
    requires k <= Width(a.family)
    ensures Contains(p, a) && p.len >= k ==> Extends(PathOf(p), AddrPath(a, k))
  {
    if Contains(p, a) && p.len >= k {
      assert PathOf(p).bits[..k] == Bits(a.value, Width(a.family))[..p.len][..k];
    }
  }

  /** The linear scan's test `mask & ip == addr` on a prefix's own mask and
      network address: it holds exactly when the prefix contains the
      address. */
  lemma MaskTestIffContains(p: Prefix, a: Addr)
    requires ValidPrefix(p) && ValidAddr(a) && p.family == a.family
    ensures And(Mask(Width(p.family), p.len), a.value) == p.net <==> Contains(p, a)
  {
    var w, k := Width(p.family), Width(p.family) - p.len;
    MaskAnd(w, p.len, a.value);
    NoHostBits(p.net, k);
    SamePathIff(p.net, a.value, w, p.len);
    var qa, qp := Shr(a.value, k), Shr(p.net, k);
    if qa * Pow2(k) == qp * Pow2(k) {
      CancelPositive(qa, qp, Pow2(k));
    }
  }

  lemma CancelPositive(x: int, y: int, c: int)
    requires c > 0 && x * c == y * c
    ensures x == y
  {
    if x < y { MulMonotoneStrict(x, y, c); }
    if y < x { MulMonotoneStrict(y, x, c); }
  }

  lemma MulMonotoneStrict(x: int, y: int, c: int)
    requires c > 0 && x < y
    ensures x * c < y * c
  {
  }

  /** `r.subnet_of(p)` for networks of the same family: r is at least as
      long as p and agrees with p on p's network bits. */
  predicate SubnetOf(r: Prefix, p: Prefix) {
    r.family == p.family && p.len <= r.len && p.len <= Width(p.family) &&
    Shr(r.net, Width(p.family) - p.len) == Shr(p.net, Width(p.family) - p.len)
  }

  /** A network is a subnet of a prefix exactly when its trie position lies
      in the subtree of the prefix's position. */
  lemma SubnetIffBelow(r: Prefix, p: Prefix)
    requires ValidPrefix(r) && ValidPrefix(p)
    ensures SubnetOf(r, p) <==> Extends(PathOf(r), PathOf(p))
  {
    if r.family == p.family && p.len <= r.len {
      var w := Width(p.family);
      SamePathIff(r.net, p.net, w, p.len);
      assert PathOf(r).bits[..p.len] == Bits(r.net, w)[..p.len];
    }
  }

  /** Valid prefixes stored at the same node are the same prefix. */
  lemma PathOfInjective(p: Prefix, q: Prefix)
    requires ValidPrefix(p) && ValidPrefix(q) && PathOf(p) == PathOf(q)
    ensures p == q
  {
    var w := Width(p.family);
    assert |PathOf(p).bits| == p.len && |PathOf(q).bits| == q.len;
    SamePathIff(p.net, q.net, w, p.len);
    var k := w - p.len;
    NoHostBits(p.net, k);
    NoHostBits(q.net, k);
  }

  lemma NoHostBits(a: nat, k: nat)
    requires a % Pow2(k) == 0
    ensures a == Shr(a, k) * Pow2(k)
  {
  }

  /** A position in the subtree of a child is in the subtree of the parent. */
  lemma ExtendsChild(q: Path, p: Path, b: bool)
    requires Extends(q, Child(p, b))
    ensures Extends(q, p) && q != p && q.bits[|p.bits|] == b
  {
    var n := |p.bits|;
    assert q.bits[..n + 1] == p.bits + [b];
    assert q.bits[..n] == (q.bits[..n + 1])[..n];
    assert q.bits[n] == (q.bits[..n + 1])[n];
  }

  /** The subtree at `p` is its node and the subtrees of its two children. */
  lemma ExtendsSplit(q: Path, p: Path)
    ensures Extends(q, p) <==> q == p || Extends(q, Child(p, false)) || Extends(q, Child(p, true))
    ensures !(Extends(q, Child(p, false)) && Extends(q, Child(p, true)))
    ensures q == p ==> !Extends(q, Child(p, false)) && !Extends(q, Child(p, true))
  {
    var n := |p.bits|;
    if Extends(q, p) && q != p {
      assert |q.bits| != n;
      assert q.bits[..n + 1] == p.bits + [q.bits[n]];
      assert Extends(q, Child(p, q.bits[n]));
    }
    if Extends(q, Child(p, false)) { ExtendsChild(q, p, false); }
    if Extends(q, Child(p, true)) { ExtendsChild(q, p, true); }
  }

  /** RouteInfo: one route stored in the trie. `prefix` is the text the
      route was inserted with, `network` its parse (which gives the prefix
      length and IP version the source stores), `nhn` the next hop as an
      integer, used for tie-breaking. */
  datatype RouteInfo = RouteInfo(prefix: string, network: Prefix, nextHop: string, metric: int, nhn: nat)

  /** Which routes an operation looks at. */
  datatype Selector =
    | AtPath(path: Path)          // stored at the node of `path`
    | Below(path: Path)           // stored in the subtree of `path`
    | Covers(addr: Addr)          // prefix contains `addr`
    | LenAtLeast(n: nat)          // prefix length at least `n`
    | NextHop(nextHop: string)    // next hop text equals `nextHop`
    | PrefixText(text: string)    // prefix text equals `text`
    | Both(left: Selector, right: Selector)

  predicate Selects(s: Selector, r: RouteInfo) {
    match s
    case AtPath(p) => r.network.len <= Width(r.network.family) && PathOf(r.network) == p
    case Below(p) => r.network.len <= Width(r.network.family) && Extends(PathOf(r.network), p)
    case Covers(a) => Contains(r.network, a)
    case LenAtLeast(n) => r.network.len >= n
    case NextHop(nh) => r.nextHop == nh
    case PrefixText(text) => r.prefix == text
    case Both(s1, s2) => Selects(s1, r) && Selects(s2, r)
  }

  /** The selector as a predicate on routes. */
  function Pred(sel: Selector): RouteInfo -> bool {
    r => Selects(sel, r)
  }

  lemma CoversIff(r: RouteInfo, a: Addr)
    ensures Pred(Covers(a))(r) <==> Contains(r.network, a)
  {
  }

  /** The routes of `s` satisfying `f`, in order. */
  function Filter(s: seq<RouteInfo>, f: RouteInfo -> bool): (r: seq<RouteInfo>)
    ensures |r| <= |s|
    ensures forall i :: 0 <= i < |r| ==> f(r[i])
  {
    if s == [] then []
    else (if f(s[0]) then [s[0]] else []) + Filter(s[1..], f)
  }

  /** Filtering keeps only routes that were there. */
  lemma {:induction false} FilterSubMultiset(s: seq<RouteInfo>, f: RouteInfo -> bool)
    ensures multiset(Filter(s, f)) <= multiset(s)
  {
    if s != [] {
      FilterSubMultiset(s[1..], f);
      assert s == [s[0]] + s[1..];
    }
  }

  /** A route is kept exactly when it is in `s` and satisfies `f`. */
  lemma {:induction false} FilterMembers(s: seq<RouteInfo>, f: RouteInfo -> bool, x: RouteInfo)
    ensures x in Filter(s, f) <==> x in s && f(x)
  {
    if s != [] {
      FilterMembers(s[1..], f, x);
      assert s == [s[0]] + s[1..];
    }
  }

  /** The routes of `s` that `sel` selects, in order. */
  function Select(s: seq<RouteInfo>, sel: Selector): seq<RouteInfo> {
    Filter(s, Pred(sel))
  }

  function SetMetric(r: RouteInfo, f: RouteInfo -> bool, m: int): RouteInfo {
    if f(r) then r.(metric := m) else r
  }

  /** `s` with the metric of every route satisfying `f` set to `m`. */
  function AssignIf(s: seq<RouteInfo>, f: RouteInfo -> bool, m: int): (r: seq<RouteInfo>)
    ensures |r| == |s|
    ensures forall i :: 0 <= i < |s| ==> r[i] == SetMetric(s[i], f, m)
  {
    if s == [] then [] else [SetMetric(s[0], f, m)] + AssignIf(s[1..], f, m)
  }

  /** `s` with the metric of every selected route set to `m`. */
  function Assign(s: seq<RouteInfo>, sel: Selector, m: int): seq<RouteInfo> {
    AssignIf(s, Pred(sel), m)
  }

  /** No selector looks at the metric. */
  lemma SelectsIgnoresMetric(sel: Selector, r: RouteInfo, m: int)
    ensures Selects(sel, r.(metric := m)) == Selects(sel, r)
  {
  }

  ghost predicate IgnoresMetric(f: RouteInfo -> bool) {
    forall r: RouteInfo, m: int :: f(r.(metric := m)) == f(r)
  }

  lemma PredIgnoresMetric(sel: Selector)
    ensures IgnoresMetric(Pred(sel))
  {
    forall r: RouteInfo, m: int ensures Pred(sel)(r.(metric := m)) == Pred(sel)(r) {
      SelectsIgnoresMetric(sel, r, m);
    }
  }

  lemma {:induction false} FilterAppend(s: seq<RouteInfo>, t: seq<RouteInfo>, f: RouteInfo -> bool)
    ensures Filter(s + t, f) == Filter(s, f) + Filter(t, f)
  {
    if s == [] {
      assert s + t == t;
    } else {
      assert (s + t)[0] == s[0];
      assert (s + t)[1..] == s[1..] + t;
      FilterAppend(s[1..], t, f);
    }
  }

  /** Filtering one more element of a prefix of `s`. */
  lemma FilterStep(s: seq<RouteInfo>, i: nat, f: RouteInfo -> bool)
    requires i < |s|
    ensures |Filter(s[..i + 1], f)| == |Filter(s[..i], f)| + if f(s[i]) then 1 else 0
  {
    assert s[..i + 1] == s[..i] + [s[i]];
    FilterAppend(s[..i], [s[i]], f);
  }

  /** Predicates that agree on every element of `s` keep the same routes. */
  lemma {:induction false} FilterEquiv(s: seq<RouteInfo>, f: RouteInfo -> bool, g: RouteInfo -> bool)
    requires forall i :: 0 <= i < |s| ==> f(s[i]) == g(s[i])
    ensures Filter(s, f) == Filter(s, g)
  {
    if s != [] {
      assert f(s[0]) == g(s[0]);
      FilterEquiv(s[1..], f, g);
    }
  }

  lemma {:induction false} FilterNone(s: seq<RouteInfo>, f: RouteInfo -> bool)
    requires forall i :: 0 <= i < |s| ==> !f(s[i])
    ensures Filter(s, f) == []
  {
    if s != [] {
      assert !f(s[0]);
      FilterNone(s[1..], f);
    }
  }

  lemma {:induction false} FilterAll(s: seq<RouteInfo>, f: RouteInfo -> bool)
    requires forall i :: 0 <= i < |s| ==> f(s[i])
    ensures Filter(s, f) == s
  {
    if s != [] {
      assert f(s[0]);
      FilterAll(s[1..], f);
      assert s == [s[0]] + s[1..];
    }
  }

  /** Filtering by `f` is filtering by `g` and by `h` when `f` is their
      disjoint union on `s`; counted with multiplicity. */
  lemma {:induction false} FilterSplit(s: seq<RouteInfo>, f: RouteInfo -> bool, g: RouteInfo -> bool, h: RouteInfo -> bool)
    requires forall i :: 0 <= i < |s| ==> (f(s[i]) <==> g(s[i]) || h(s[i])) && !(g(s[i]) && h(s[i]))
    ensures multiset(Filter(s, f)) == multiset(Filter(s, g)) + multiset(Filter(s, h))
  {
    if s != [] {
      var x := s[0];
      assert (f(x) <==> g(x) || h(x)) && !(g(x) && h(x));
      FilterSplit(s[1..], f, g, h);
      SplitStep(x, f(x), g(x), h(x), Filter(s[1..], f), Filter(s[1..], g), Filter(s[1..], h));
    }
  }

  lemma SplitStep(x: RouteInfo, b1: bool, b2: bool, b3: bool,
                  r1: seq<RouteInfo>, r2: seq<RouteInfo>, r3: seq<RouteInfo>)
    requires (b1 <==> b2 || b3) && !(b2 && b3)
    requires multiset(r1) == multiset(r2) + multiset(r3)
    ensures multiset((if b1 then [x] else []) + r1) ==
            multiset((if b2 then [x] else []) + r2) + multiset((if b3 then [x] else []) + r3)
  {
  }

  /** Three-way version of FilterSplit. */
  lemma {:induction false} FilterSplit3(s: seq<RouteInfo>, f: RouteInfo -> bool,
                                        g1: RouteInfo -> bool, g2: RouteInfo -> bool, g3: RouteInfo -> bool)
    requires forall i :: 0 <= i < |s| ==>
      (f(s[i]) <==> g1(s[i]) || g2(s[i]) || g3(s[i])) &&
      !(g1(s[i]) && g2(s[i])) && !(g1(s[i]) && g3(s[i])) && !(g2(s[i]) && g3(s[i]))
    ensures multiset(Filter(s, f)) == multiset(Filter(s, g1)) + multiset(Filter(s, g2)) + multiset(Filter(s, g3))
  {
    if s != [] {
      var x := s[0];
      assert (f(x) <==> g1(x) || g2(x) || g3(x)) && !(g1(x) && g2(x)) && !(g1(x) && g3(x)) && !(g2(x) && g3(x));
      FilterSplit3(s[1..], f, g1, g2, g3);
      Split3Step(x, f(x), g1(x), g2(x), g3(x),
        Filter(s[1..], f), Filter(s[1..], g1), Filter(s[1..], g2), Filter(s[1..], g3));
    }
  }

  lemma Split3Step(x: RouteInfo, b: bool, b1: bool, b2: bool, b3: bool,
                   r: seq<RouteInfo>, r1: seq<RouteInfo>, r2: seq<RouteInfo>, r3: seq<RouteInfo>)
    requires (b <==> b1 || b2 || b3) && !(b1 && b2) && !(b1 && b3) && !(b2 && b3)
    requires multiset(r) == multiset(r1) + multiset(r2) + multiset(r3)
    ensures multiset((if b then [x] else []) + r) ==
            multiset((if b1 then [x] else []) + r1) + multiset((if b2 then [x] else []) + r2) +
            multiset((if b3 then [x] else []) + r3)
  {
  }

  /** Filtering by `g` after `f` is filtering by their conjunction. */
  lemma {:induction false} FilterFilter(s: seq<RouteInfo>, f: RouteInfo -> bool, g: RouteInfo -> bool, fg: RouteInfo -> bool)
    requires forall i :: 0 <= i < |s| ==> fg(s[i]) == (f(s[i]) && g(s[i]))
    ensures Filter(Filter(s, f), g) == Filter(s, fg)
  {
    if s != [] {
      var x := s[0];
      assert fg(x) == (f(x) && g(x));
      var head := if f(x) then [x] else [];
      FilterFilter(s[1..], f, g, fg);
      FilterAppend(head, Filter(s[1..], f), g);
      if f(x) {
        assert head[1..] == [];
      }
    }
  }

  lemma {:induction false} AssignAppend(s: seq<RouteInfo>, t: seq<RouteInfo>, f: RouteInfo -> bool, m: int)
    ensures AssignIf(s + t, f, m) == AssignIf(s, f, m) + AssignIf(t, f, m)
  {
  }

  lemma AssignEquiv(s: seq<RouteInfo>, f: RouteInfo -> bool, g: RouteInfo -> bool, m: int)
    requires forall i :: 0 <= i < |s| ==> f(s[i]) == g(s[i])
    ensures AssignIf(s, f, m) == AssignIf(s, g, m)
  {
  }

  lemma AssignNone(s: seq<RouteInfo>, f: RouteInfo -> bool, m: int)
    requires forall i :: 0 <= i < |s| ==> !f(s[i])
    ensures AssignIf(s, f, m) == s
  {
  }

  /** Two assignments of the same metric are one assignment to the union. */
  lemma AssignTwice(s: seq<RouteInfo>, f: RouteInfo -> bool, g: RouteInfo -> bool, fg: RouteInfo -> bool, m: int)
    requires IgnoresMetric(g)
    requires forall i :: 0 <= i < |s| ==> fg(s[i]) == (f(s[i]) || g(s[i]))
    ensures AssignIf(AssignIf(s, f, m), g, m) == AssignIf(s, fg, m)
  {
    forall i | 0 <= i < |s|
      ensures AssignIf(AssignIf(s, f, m), g, m)[i] == AssignIf(s, fg, m)[i]
    {
      assert g(s[i].(metric := m)) == g(s[i]);
    }
  }

  /** Three assignments of the same metric are one assignment to the union. */
  lemma AssignThree(s: seq<RouteInfo>, f1: RouteInfo -> bool, f2: RouteInfo -> bool, f3: RouteInfo -> bool,
                    f: RouteInfo -> bool, m: int)
    requires IgnoresMetric(f2) && IgnoresMetric(f3)
    requires forall i :: 0 <= i < |s| ==> f(s[i]) == (f1(s[i]) || f2(s[i]) || f3(s[i]))
    ensures AssignIf(AssignIf(AssignIf(s, f1, m), f2, m), f3, m) == AssignIf(s, f, m)
  {
    forall i | 0 <= i < |s|
      ensures AssignIf(AssignIf(AssignIf(s, f1, m), f2, m), f3, m)[i] == AssignIf(s, f, m)[i]
    {
      assert f2(s[i].(metric := m)) == f2(s[i]);
      assert f3(s[i].(metric := m)) == f3(s[i]);
      assert f3(s[i].(metric := m).(metric := m)) == f3(s[i]);
    }
  }

  /** Assigning metrics and then filtering is filtering and then assigning. */
  lemma {:induction false} FilterAssign(s: seq<RouteInfo>, f: RouteInfo -> bool, g: RouteInfo -> bool, m: int)
    requires IgnoresMetric(g)
    ensures Filter(AssignIf(s, f, m), g) == AssignIf(Filter(s, g), f, m)
  {
    if s != [] {
      var x := s[0];
      var t := AssignIf(s, f, m);
      FilterAssign(s[1..], f, g, m);
      assert g(x.(metric := m)) == g(x);
      assert t[0] == SetMetric(x, f, m);
      assert t[1..] == AssignIf(s[1..], f, m);
      var head := if g(x) then [x] else [];
      AssignAppend(head, Filter(s[1..], g), f, m);
    }
  }

  /** Assigning metrics does not change how many routes a metric-blind
      filter keeps. */
  lemma CountAfterAssign(s: seq<RouteInfo>, f: RouteInfo -> bool, g: RouteInfo -> bool, m: int)
    requires IgnoresMetric(g)
    ensures |Filter(AssignIf(s, f, m), g)| == |Filter(s, g)|
  {
    FilterAssign(s, f, g, m);
  }

  /** Every route of an assignment result is a route of the input with
      possibly another metric. */
  lemma AssignMembers(s: seq<RouteInfo>, f: RouteInfo -> bool, m: int, r: RouteInfo)
    requires r in AssignIf(s, f, m)
    ensures exists x :: x in s && r == SetMetric(x, f, m)
  {
    var i :| 0 <= i < |AssignIf(s, f, m)| && AssignIf(s, f, m)[i] == r;
    assert s[i] in s;
  }

  /** A route in the subtree at `p` is at `p` or in the subtree of exactly
      one child. */
  lemma BelowSplitPlain(r: RouteInfo, p: Path)
    ensures Selects(Below(p), r) <==>
      Selects(AtPath(p), r) || Selects(Below(Child(p, false)), r) || Selects(Below(Child(p, true)), r)
    ensures !(Selects(AtPath(p), r) && Selects(Below(Child(p, false)), r))
    ensures !(Selects(AtPath(p), r) && Selects(Below(Child(p, true)), r))
    ensures !(Selects(Below(Child(p, false)), r) && Selects(Below(Child(p, true)), r))
  {
    if r.network.len <= Width(r.network.family) {
      ExtendsSplit(PathOf(r.network), p);
    }
  }

  /** The routes of a subtree are those of its node and of its two child
      subtrees, counted with multiplicity. */
  lemma SelectBelow(s: seq<RouteInfo>, p: Path)
    ensures multiset(Select(s, Below(p))) ==
      multiset(Select(s, AtPath(p))) + multiset(Select(s, Below(Child(p, false)))) +
      multiset(Select(s, Below(Child(p, true))))
  {
    forall i | 0 <= i < |s|
      ensures (Pred(Below(p))(s[i]) <==>
        Pred(AtPath(p))(s[i]) || Pred(Below(Child(p, false)))(s[i]) || Pred(Below(Child(p, true)))(s[i]))
      ensures !(Pred(AtPath(p))(s[i]) && Pred(Below(Child(p, false)))(s[i]))
      ensures !(Pred(AtPath(p))(s[i]) && Pred(Below(Child(p, true)))(s[i]))
      ensures !(Pred(Below(Child(p, false)))(s[i]) && Pred(Below(Child(p, true)))(s[i]))
    {
      BelowSplitPlain(s[i], p);
    }
    FilterSplit3(s, Pred(Below(p)), Pred(AtPath(p)), Pred(Below(Child(p, false))), Pred(Below(Child(p, true))));
  }

  /** Every route with a prefix that fits its family is in the IPv4 trie or
      the IPv6 trie. */
  lemma SelectFamilies(s: seq<RouteInfo>)
    requires forall i :: 0 <= i < |s| ==> s[i].network.len <= Width(s[i].network.family)
    ensures multiset(Select(s, Below(Root(V4)))) + multiset(Select(s, Below(Root(V6)))) == multiset(s)
  {
    var all: RouteInfo -> bool := r => true;
    forall i | 0 <= i < |s|
      ensures (all(s[i]) <==> Pred(Below(Root(V4)))(s[i]) || Pred(Below(Root(V6)))(s[i]))
      ensures !(Pred(Below(Root(V4)))(s[i]) && Pred(Below(Root(V6)))(s[i]))
    {
      assert PathOf(s[i].network).bits[..0] == [];
    }
    FilterSplit(s, all, Pred(Below(Root(V4))), Pred(Below(Root(V6))));
    FilterAll(s, all);
  }

  /** The subtree at `p` is the node at `p` and the subtrees of its two
      children, and a route is in at most one of the three. */
  lemma BelowSplit(r: RouteInfo, p: Path, sel: Selector)
    ensures Selects(Both(Below(p), sel), r) <==>
      Selects(Both(AtPath(p), sel), r) || Selects(Both(Below(Child(p, false)), sel), r) ||
      Selects(Both(Below(Child(p, true)), sel), r)
    ensures !(Selects(Both(AtPath(p), sel), r) && Selects(Both(Below(Child(p, false)), sel), r))
    ensures !(Selects(Both(AtPath(p), sel), r) && Selects(Both(Below(Child(p, true)), sel), r))
    ensures !(Selects(Both(Below(Child(p, false)), sel), r) && Selects(Both(Below(Child(p, true)), sel), r))
  {
    assert Selects(Both(Below(p), sel), r) == (Selects(Below(p), r) && Selects(sel, r));
    assert Selects(Both(AtPath(p), sel), r) == (Selects(AtPath(p), r) && Selects(sel, r));
    assert Selects(Both(Below(Child(p, false)), sel), r) == (Selects(Below(Child(p, false)), r) && Selects(sel, r));
    assert Selects(Both(Below(Child(p, true)), sel), r) == (Selects(Below(Child(p, true)), r) && Selects(sel, r));
    BelowSplitPlain(r, p);
  }

  /** Updating the node and then each child subtree is updating the whole
      subtree. */
  lemma AssignBelow(s: seq<RouteInfo>, p: Path, sel: Selector, m: int)
    ensures AssignIf(AssignIf(Assign(s, Both(AtPath(p), sel), m), Pred(Both(Below(Child(p, false)), sel)), m),
                     Pred(Both(Below(Child(p, true)), sel)), m)
            == Assign(s, Both(Below(p), sel), m)
  {
    forall i | 0 <= i < |s|
      ensures Pred(Both(Below(p), sel))(s[i]) ==
        (Pred(Both(AtPath(p), sel))(s[i]) || Pred(Both(Below(Child(p, false)), sel))(s[i]) ||
         Pred(Both(Below(Child(p, true)), sel))(s[i]))
    {
      BelowSplit(s[i], p, sel);
    }
    PredIgnoresMetric(Both(Below(Child(p, false)), sel));
    PredIgnoresMetric(Both(Below(Child(p, true)), sel));
    AssignThree(s, Pred(Both(AtPath(p), sel)), Pred(Both(Below(Child(p, false)), sel)),
      Pred(Both(Below(Child(p, true)), sel)), Pred(Both(Below(p), sel)), m);
  }

  /** The routes of a subtree are those of its node and of its two child
      subtrees. */
  lemma CountBelow(s: seq<RouteInfo>, p: Path, sel: Selector)
    ensures |Select(s, Both(Below(p), sel))| ==
      |Select(s, Both(AtPath(p), sel))| + |Select(s, Both(Below(Child(p, false)), sel))| +
      |Select(s, Both(Below(Child(p, true)), sel))|
  {
    forall i | 0 <= i < |s|
      ensures (Pred(Both(Below(p), sel))(s[i]) <==>
        Pred(Both(AtPath(p), sel))(s[i]) || Pred(Both(Below(Child(p, false)), sel))(s[i]) ||
        Pred(Both(Below(Child(p, true)), sel))(s[i]))
      ensures !(Pred(Both(AtPath(p), sel))(s[i]) && Pred(Both(Below(Child(p, false)), sel))(s[i]))
      ensures !(Pred(Both(AtPath(p), sel))(s[i]) && Pred(Both(Below(Child(p, true)), sel))(s[i]))
      ensures !(Pred(Both(Below(Child(p, false)), sel))(s[i]) && Pred(Both(Below(Child(p, true)), sel))(s[i]))
    {
      BelowSplit(s[i], p, sel);
    }
    FilterSplit3(s, Pred(Both(Below(p), sel)), Pred(Both(AtPath(p), sel)),
      Pred(Both(Below(Child(p, false)), sel)), Pred(Both(Below(Child(p, true)), sel)));
    assert |multiset(Select(s, Both(Below(p), sel)))| == |Select(s, Both(Below(p), sel))|;
  }

  /** What the routes stored at `q` become when the routes at `p` that
      `sel` selects get metric `m`. */
  lemma AssignAtNode(s: seq<RouteInfo>, p: Path, q: Path, sel: Selector, m: int)
    ensures Select(Assign(s, Both(AtPath(p), sel), m), AtPath(q)) ==
      if q == p then AssignIf(Select(s, AtPath(p)), Pred(sel), m) else Select(s, AtPath(q))
  {
    var here := Select(s, AtPath(q));
    PredIgnoresMetric(AtPath(q));
    FilterAssign(s, Pred(Both(AtPath(p), sel)), Pred(AtPath(q)), m);
    assert forall i :: 0 <= i < |here| ==> Selects(AtPath(q), here[i]);
    if q == p {
      AssignEquiv(here, Pred(Both(AtPath(p), sel)), Pred(sel), m);
    } else {
      forall i | 0 <= i < |here| ensures !Pred(Both(AtPath(p), sel))(here[i]) {
        assert Selects(AtPath(q), here[i]) && !Selects(AtPath(p), here[i]);
        assert Pred(Both(AtPath(p), sel))(here[i]) == Selects(Both(AtPath(p), sel), here[i]);
      }
      AssignNone(here, Pred(Both(AtPath(p), sel)), m);
    }
  }

  /** The routes at `p` that `sel` selects, counted from the whole sequence
      or from the node's own routes. */
  lemma CountAtNode(s: seq<RouteInfo>, p: Path, sel: Selector)
    ensures |Select(s, Both(AtPath(p), sel))| == |Filter(Select(s, AtPath(p)), Pred(sel))|
  {
    FilterFilter(s, Pred(AtPath(p)), Pred(sel), Pred(Both(AtPath(p), sel)));
  }

  // ---------------------------------------------------------------------
  // The routes a walk along the bits of an address meets

  /** The routes stored at the nodes AddrPath(a, d), AddrPath(a, d + 1), ...
      down to full depth, concatenated shallowest first. */
  function Collect(s: seq<RouteInfo>, a: Addr, d: nat): seq<RouteInfo>
    decreases Width(a.family) + 1 - d
  {
    if d > Width(a.family) then []
    else Select(s, AtPath(AddrPath(a, d))) + Collect(s, a, d + 1)
  }

  /** The routes stored at the nodes AddrPath(a, 0) ... AddrPath(a, d),
      shallowest first: what the walk has met after d steps. */
  function CollectUpTo(s: seq<RouteInfo>, a: Addr, d: nat): seq<RouteInfo>
    requires d <= Width(a.family)
  {
    (if d == 0 then [] else CollectUpTo(s, a, d - 1)) + Select(s, AtPath(AddrPath(a, d)))
  }

  lemma AppendAssoc(x: seq<RouteInfo>, y: seq<RouteInfo>, z: seq<RouteInfo>)
    ensures (x + y) + z == x + (y + z)
  {
  }

  /** What the walk has met and what it would still meet make up the
      whole walk. */
  lemma {:induction false} CollectSplit(s: seq<RouteInfo>, a: Addr, d: nat)
    requires d <= Width(a.family)
    ensures CollectUpTo(s, a, d) + Collect(s, a, d + 1) == Collect(s, a, 0)
  {
    if d > 0 {
      CollectSplit(s, a, d - 1);
      var before, here, after := CollectUpTo(s, a, d - 1), Select(s, AtPath(AddrPath(a, d))), Collect(s, a, d + 1);
      assert CollectUpTo(s, a, d) == before + here;
      assert Collect(s, a, d) == here + after;
      AppendAssoc(before, here, after);
    }
  }

  /** A walk that meets nothing after depth d has met everything by then. */
  lemma CollectStops(s: seq<RouteInfo>, a: Addr, d: nat)
    requires d <= Width(a.family) && Collect(s, a, d + 1) == []
    ensures CollectUpTo(s, a, d) == Collect(s, a, 0)
  {
    CollectSplit(s, a, d);
    assert CollectUpTo(s, a, d) + [] == CollectUpTo(s, a, d);
  }

  /** A route is stored at depth d of the walk of `a` exactly when its prefix
      contains `a` and has length d. */
  lemma AtDepthIff(r: RouteInfo, a: Addr, d: nat)
    requires d <= Width(a.family)
    ensures Selects(AtPath(AddrPath(a, d)), r) <==> Contains(r.network, a) && r.network.len == d
  {
  }

  /** The walk from depth d meets exactly the routes whose prefix contains
      `a` and is at least d long. */
  lemma {:induction false} CollectContents(s: seq<RouteInfo>, a: Addr, d: nat)
    ensures multiset(Collect(s, a, d)) == multiset(Select(s, Both(Covers(a), LenAtLeast(d))))
    decreases Width(a.family) + 1 - d
  {
    if d > Width(a.family) {
      forall i | 0 <= i < |s| ensures !Pred(Both(Covers(a), LenAtLeast(d)))(s[i]) {
        if Selects(Covers(a), s[i]) {
          assert Contains(s[i].network, a);
          assert s[i].network.len <= Width(a.family) < d;
        }
        assert !Selects(Both(Covers(a), LenAtLeast(d)), s[i]);
      }
      FilterNone(s, Pred(Both(Covers(a), LenAtLeast(d))));
    } else {
      CollectContents(s, a, d + 1);
      forall i | 0 <= i < |s|
        ensures (Selects(Both(Covers(a), LenAtLeast(d)), s[i]) <==>
                  Selects(AtPath(AddrPath(a, d)), s[i]) || Selects(Both(Covers(a), LenAtLeast(d + 1)), s[i]))
        ensures !(Selects(AtPath(AddrPath(a, d)), s[i]) && Selects(Both(Covers(a), LenAtLeast(d + 1)), s[i]))
      {
        AtDepthIff(s[i], a, d);
      }
      FilterSplit(s, Pred(Both(Covers(a), LenAtLeast(d))), Pred(AtPath(AddrPath(a, d))), Pred(Both(Covers(a), LenAtLeast(d + 1))));
    }
  }

  /** Every prefix is at least zero long. */
  lemma CoversAnyLen(s: seq<RouteInfo>, a: Addr)
    ensures Select(s, Both(Covers(a), LenAtLeast(0))) == Select(s, Covers(a))
  {
    forall i | 0 <= i < |s|
      ensures Pred(Both(Covers(a), LenAtLeast(0)))(s[i]) == Pred(Covers(a))(s[i])
    {
      assert Selects(Both(Covers(a), LenAtLeast(0)), s[i]) == (Selects(Covers(a), s[i]) && Selects(LenAtLeast(0), s[i]));
    }
    FilterEquiv(s, Pred(Both(Covers(a), LenAtLeast(0))), Pred(Covers(a)));
  }

  /** The whole walk meets exactly the routes whose prefix contains `a`. */
  lemma CollectAll(s: seq<RouteInfo>, a: Addr)
    ensures multiset(Collect(s, a, 0)) == multiset(Select(s, Covers(a)))
  {
    CollectContents(s, a, 0);
    CoversAnyLen(s, a);
  }

  /** The walk meets no route exactly when no route contains `a`. */
  lemma NoMatchIff(s: seq<RouteInfo>, a: Addr)
    ensures Collect(s, a, 0) == [] <==> Select(s, Covers(a)) == []
  {
    CollectAll(s, a);
    assert |multiset(Collect(s, a, 0))| == |Collect(s, a, 0)|;
    assert |multiset(Select(s, Covers(a)))| == |Select(s, Covers(a))|;
  }

  predicate SortedByLen(s: seq<RouteInfo>) {
    forall i, j :: 0 <= i < j < |s| ==> s[i].network.len <= s[j].network.len
  }

  /** The walk meets shorter prefixes first. */
  lemma {:induction false} CollectSorted(s: seq<RouteInfo>, a: Addr, d: nat)
    ensures SortedByLen(Collect(s, a, d))
    ensures forall i :: 0 <= i < |Collect(s, a, d)| ==> Collect(s, a, d)[i].network.len >= d
    decreases Width(a.family) + 1 - d
  {
    if d <= Width(a.family) {
      CollectSorted(s, a, d + 1);
      var here := Select(s, AtPath(AddrPath(a, d)));
      forall i | 0 <= i < |here| ensures here[i].network.len == d {
        AtDepthIff(here[i], a, d);
      }
    }
  }

  /** Once no route below depth d contains `a`, the rest of the walk is empty. */
  lemma CollectEmpty(s: seq<RouteInfo>, a: Addr, d: nat)
    requires forall i :: 0 <= i < |s| ==> !(Contains(s[i].network, a) && s[i].network.len >= d)
    ensures Collect(s, a, d) == []
  {
    CollectContents(s, a, d);
    forall i | 0 <= i < |s| ensures !Pred(Both(Covers(a), LenAtLeast(d)))(s[i]) {
      assert !Selects(Both(Covers(a), LenAtLeast(d)), s[i]);
    }
    FilterNone(s, Pred(Both(Covers(a), LenAtLeast(d))));
  }
}
