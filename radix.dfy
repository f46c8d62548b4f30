/** The binary radix tree of service/lib/radix_tree.py: one trie per IP
    family, a node per prefix position, and at each node the routes whose
    prefix ends there.

    The abstraction: `Nodes` maps every trie position (family and bit path
    from the root) to its node object, and `Inserted` is every route ever
    inserted, in insertion order and with its current metric. `Valid()`
    ties the heap to them: each node holds exactly the inserted routes whose
    prefix ends at its position. */
module Radix {
  import opened AddrMath
  import opened Routes

  /** The integer value of the next hop when it parses as an IP address,
      else 0 (the tie-breaking `nhn`). */
  function NhnOf(nhAddr: Option<nat>): nat {
    if nhAddr.Some? then nhAddr.value else 0
  }

  predicate ValidRoute(r: RouteInfo) { ValidPrefix(r.network) }

  /** The routes `update_metric` changes: for "exact", the routes at the
      node of the network with the given next hop and whose prefix text is
      the network's canonical text; for any other match type, every route
      in the subtree of the network with the given next hop. */
  function UpdateSelector(network: Prefix, withPrefixLen: string, nextHop: string, matchType: string): Selector
    requires network.len <= Width(network.family)
  {
    if matchType == "exact" then Both(AtPath(PathOf(network)), Both(NextHop(nextHop), PrefixText(withPrefixLen)))
    else Both(Below(PathOf(network)), NextHop(nextHop))
  }

  class RadixNode {
    var left: RadixNode?
    var right: RadixNode?
    var routes: seq<RouteInfo>
    /** The position of this node in its trie. */
    ghost var pos: Path

    constructor(ghost p: Path)
      ensures left == null && right == null && routes == [] && pos == p
    {
      left := null;
      right := null;
      routes := [];
      pos := p;
    }

    predicate HasRoutes()
      reads this
    {
      |routes| > 0
    }
  }

  class RadixTree {
    var ipv4Root: RadixNode
    var ipv6Root: RadixNode
    var routeCount: nat

    ghost var Nodes: map<Path, RadixNode>
    ghost var Inserted: seq<RouteInfo>

    /** The node object expected at a child position, or null. */
    static ghost function ChildNode(nodes: map<Path, RadixNode>, p: Path, b: bool): RadixNode? {
      if Child(p, b) in nodes then nodes[Child(p, b)] else null
    }

    /** Every position on the way to a node has a node. */
    static ghost predicate Closed(nodes: map<Path, RadixNode>) {
      forall p, k {:trigger nodes[p], p.bits[..k]} ::
        p in nodes && 0 <= k <= |p.bits| ==> Path(p.family, p.bits[..k]) in nodes
    }


    /** Positions fit the width of their family. */
    static ghost predicate Bounded(nodes: map<Path, RadixNode>) {
      forall p :: p in nodes ==> |p.bits| <= Width(p.family)
    }

    /** Each node knows its position, so distinct positions have distinct
        nodes. */
    ghost predicate Indexed()
      reads this, Nodes.Values
    {
      forall p {:trigger Nodes[p]} :: p in Nodes ==> Nodes[p].pos == p
    }

    /** The child pointers follow the positions. */
    ghost predicate Linked()
      reads this, Nodes.Values
    {
      (forall p {:trigger Nodes[p].left} :: p in Nodes ==> Nodes[p].left == ChildNode(Nodes, p, false)) &&
      (forall p {:trigger Nodes[p].right} :: p in Nodes ==> Nodes[p].right == ChildNode(Nodes, p, true))
    }

    /** Each node holds the inserted routes whose prefix ends at it. */
    ghost predicate Stored()
      reads this, Nodes.Values
    {
      forall p {:trigger Nodes[p].routes} :: p in Nodes ==> Nodes[p].routes == Select(Inserted, AtPath(p))
    }

    /** Every inserted route is valid and its position has a node. */
    ghost predicate Placed()
      reads this
    {
      forall r :: r in Inserted ==> ValidRoute(r) && PathOf(r.network) in Nodes
    }

    ghost predicate Valid()
      reads this, Nodes.Values
    {
      Bounded(Nodes) &&
      Root(V4) in Nodes && Nodes[Root(V4)] == ipv4Root &&
      Root(V6) in Nodes && Nodes[Root(V6)] == ipv6Root &&
      Closed(Nodes) && Indexed() && Linked() && Stored() && Placed() &&
      routeCount == |Inserted|
    }

    constructor()
      ensures Valid() && fresh(Nodes.Values)
      ensures Inserted == [] && routeCount == 0
    {
      ipv4Root := new RadixNode(Root(V4));
      ipv6Root := new RadixNode(Root(V6));
      routeCount := 0;
      Nodes := map[Root(V4) := ipv4Root, Root(V6) := ipv6Root];
      Inserted := [];
      new;
      RootsClosed(ipv4Root, ipv6Root);
      forall q {:trigger Nodes[q]} | q in Nodes
        ensures Nodes[q].left == ChildNode(Nodes, q, false) && Nodes[q].right == ChildNode(Nodes, q, true)
        ensures Nodes[q].routes == Select(Inserted, AtPath(q)) && Nodes[q].pos == q
      {
        assert Child(q, false) !in Nodes && Child(q, true) !in Nodes;
      }
    }

    static lemma RootsClosed(n4: RadixNode, n6: RadixNode)
      ensures Closed(map[Root(V4) := n4, Root(V6) := n6])
    {
      var m := map[Root(V4) := n4, Root(V6) := n6];
      forall p, k {:trigger m[p], p.bits[..k]} | p in m && 0 <= k <= |p.bits|
        ensures Path(p.family, p.bits[..k]) in m
      {
        assert p.bits[..k] == [];
      }
    }

    /** No inserted route lies below a position that has no node. */
    lemma NothingBelowMissing(q: Path)
      requires Valid() && q !in Nodes
      ensures forall r :: r in Inserted ==> !Extends(PathOf(r.network), q)
    {
      forall r | r in Inserted ensures !Extends(PathOf(r.network), q) {
        var p := PathOf(r.network);
        MissingBelowMissing(Nodes, q, p);
      }
    }

    /** A position without a node holds no routes. */
    lemma NoRoutesAtMissing(c: Path)
      requires Valid() && c !in Nodes
      ensures Select(Inserted, AtPath(c)) == []
    {
      NothingBelowMissing(c);
      forall i | 0 <= i < |Inserted| ensures !Pred(AtPath(c))(Inserted[i]) {
        assert Inserted[i] in Inserted;
      }
      FilterNone(Inserted, Pred(AtPath(c)));
    }

    /** One step of the walk down, creating the child node when it is
        missing (the loop body of `insert`). */
    method Descend(current: RadixNode, ghost p: Path, bit: nat) returns (next: RadixNode)
      requires Valid() && p in Nodes && Nodes[p] == current && |p.bits| < Width(p.family)
      modifies this, current
      ensures Valid() && (next in old(Nodes.Values) || fresh(next))
      ensures Inserted == old(Inserted) && routeCount == old(routeCount)
      ensures ipv4Root == old(ipv4Root) && ipv6Root == old(ipv6Root)
      ensures Nodes == old(Nodes)[Child(p, bit != 0) := next]
    {
      var b := bit != 0;
      var existing := if bit == 0 then current.left else current.right;
      if existing != null {
        next := existing;
        assert Child(p, b) in Nodes && Nodes[Child(p, b)] == next;
        assert Nodes == Nodes[Child(p, b) := next];
        return;
      }
      var c := Child(p, b);
      NoRoutesAtMissing(c);
      next := new RadixNode(c);
      ghost var N0 := Nodes;
      assert current.pos == p;
      if bit == 0 {
        current.left := next;
      } else {
        current.right := next;
      }
      Nodes := Nodes[c := next];
      ClosedAdd(N0, p, b, next);
      forall q {:trigger Nodes[q]} | q in Nodes
        ensures Nodes[q].left == ChildNode(Nodes, q, false) && Nodes[q].right == ChildNode(Nodes, q, true)
        ensures Nodes[q].routes == Select(Inserted, AtPath(q)) && Nodes[q].pos == q
      {
        PointerAfterAdd(N0, p, b, next, q, false);
        PointerAfterAdd(N0, p, b, next, q, true);
        if q != c && q != p {
          assert Nodes[q] == N0[q] && N0[q].pos == q;
        }
      }
    }

    /** How the expected child pointers change when the node `n` for
        `Child(p, b)` is added. */
    static lemma PointerAfterAdd(nodes: map<Path, RadixNode>, p: Path, b: bool, n: RadixNode, q: Path, d: bool)
      requires p in nodes && Child(p, b) !in nodes && Closed(nodes)
      ensures q in nodes ==>
        ChildNode(nodes[Child(p, b) := n], q, d) == if q == p && d == b then n else ChildNode(nodes, q, d)
      ensures ChildNode(nodes[Child(p, b) := n], Child(p, b), d) == null
    {
      var c := Child(p, b);
      var x := Child(c, d);
      assert Extends(x, c);
      MissingBelowMissing(nodes, c, x);
      if q in nodes && Child(q, d) == c {
        assert q.bits == c.bits[..|q.bits|] == p.bits;
      }
    }

    static lemma ClosedAdd(nodes: map<Path, RadixNode>, p: Path, b: bool, n: RadixNode)
      requires Closed(nodes) && p in nodes
      ensures Closed(nodes[Child(p, b) := n])
    {
      var m := nodes[Child(p, b) := n];
      forall q, k {:trigger m[q], q.bits[..k]} | q in m && 0 <= k <= |q.bits|
        ensures Path(q.family, q.bits[..k]) in m
      {
        if q == Child(p, b) && k == |q.bits| {
          assert q.bits[..k] == q.bits;
        } else if q == Child(p, b) {
          assert q.bits[..k] == p.bits[..k];
          assert nodes[p] == nodes[p];
        } else {
          assert nodes[q] == nodes[q];
        }
      }
    }

    /** `insert`: the route goes to the node at the position of its prefix,
        which is created with every missing node on the way. A prefix text
        that does not parse is rejected before anything changes. */
    method Insert(prefix: string, network: Option<Prefix>, nextHop: string, nhAddr: Option<nat>, metric: int)
      returns (ok: bool)
      requires Valid()
      requires network.Some? ==> ValidPrefix(network.value)
      modifies this, Nodes.Values
      ensures Valid() && fresh(Nodes.Values - old(Nodes.Values))
      ensures ok == network.Some?
      ensures ok ==> Inserted == old(Inserted) + [RouteInfo(prefix, network.value, nextHop, metric, NhnOf(nhAddr))]
      ensures !ok ==> Inserted == old(Inserted)
    {
      if network.None? {
        return false;
      }
      var net := network.value;
      var route := RouteInfo(prefix, net, nextHop, metric, NhnOf(nhAddr));
      var root := if net.family == V4 then ipv4Root else ipv6Root;
      var addrInt := net.net;
      var prefixLen := net.len;
      var maxBits := if net.family == V4 then 32 else 128;
      var current := root;
      var bitPos: int := maxBits - 1;
      ghost var path := Root(net.family);
      assert Bits(addrInt, maxBits)[..0] == [];
      while bitPos > maxBits - prefixLen - 1
        invariant Valid() && fresh(Nodes.Values - old(Nodes.Values))
        invariant Inserted == old(Inserted)
        invariant maxBits - prefixLen - 1 <= bitPos <= maxBits - 1
        invariant path == Path(net.family, Bits(addrInt, maxBits)[..maxBits - 1 - bitPos])
        invariant path in Nodes && Nodes[path] == current
        decreases bitPos
      {
        var bit := And(Shr(addrInt, bitPos), 1);
        StepBit(addrInt, maxBits, bitPos);
        current := Descend(current, path, bit);
        path := Child(path, bit != 0);
        bitPos := bitPos - 1;
      }
      assert path == PathOf(net);
      AddRoute(current, path, route);
      ok := true;
    }

    /** The end of `insert`: append the route to the node at its position
        and count it. */
    method AddRoute(node: RadixNode, ghost p: Path, route: RouteInfo)
      requires Valid() && p in Nodes && Nodes[p] == node
      requires ValidRoute(route) && PathOf(route.network) == p
      modifies this, node
      ensures Valid()
      ensures Inserted == old(Inserted) + [route] && Nodes == old(Nodes)
    {
      ghost var before := Inserted;
      node.routes := node.routes + [route];
      routeCount := routeCount + 1;
      Inserted := Inserted + [route];
      assert Nodes[p].pos == p;
      forall q {:trigger Nodes[q].routes} | q in Nodes ensures Nodes[q].routes == Select(Inserted, AtPath(q)) {
        FilterAppend(before, [route], Pred(AtPath(q)));
        assert Nodes[q].pos == q;
      }
    }

    /** Below a position without a node there is no node. */
    static lemma MissingBelowMissing(nodes: map<Path, RadixNode>, q: Path, x: Path)
      requires Closed(nodes) && q !in nodes
      ensures Extends(x, q) ==> x !in nodes
    {
      ClosedPrefix(nodes, x, |q.bits|);
      if Extends(x, q) {
        assert Path(x.family, x.bits[..|q.bits|]) == q;
      }
    }

    /** A position on the way to a node has a node. */
    static lemma ClosedPrefix(nodes: map<Path, RadixNode>, x: Path, k: nat)
      requires Closed(nodes)
      ensures x in nodes && k <= |x.bits| ==> Path(x.family, x.bits[..k]) in nodes
    {
      if x in nodes && k <= |x.bits| {
        assert nodes[x] == nodes[x];
      }
    }

    /** Once the walk of `a` reaches a position without a node, it meets no
        more routes. */
    lemma MissingEndsWalk(a: Addr, k: nat)
      requires Valid() && k <= Width(a.family) && AddrPath(a, k) !in Nodes
      ensures Collect(Inserted, a, k) == []
    {
      NothingBelowMissing(AddrPath(a, k));
      forall i | 0 <= i < |Inserted|
        ensures !(Contains(Inserted[i].network, a) && Inserted[i].network.len >= k)
      {
        assert Inserted[i] in Inserted;
        ContainsExtends(Inserted[i].network, a, k);
      }
      CollectEmpty(Inserted, a, k);
    }

    /** One step of the walk of `a` from depth `d`: the child the bit
        selects is the node at depth d + 1, and when it is missing the walk
        meets no more routes. */
    lemma WalkStep(a: Addr, d: nat, bit: nat, next: RadixNode?)
      requires Valid() && d < Width(a.family) && AddrPath(a, d) in Nodes
      requires bit == And(Shr(a.value, Width(a.family) - 1 - d), 1)
      requires next == if bit == 0 then Nodes[AddrPath(a, d)].left else Nodes[AddrPath(a, d)].right
      ensures next == null ==> Collect(Inserted, a, d + 1) == []
      ensures next != null ==> AddrPath(a, d + 1) in Nodes && Nodes[AddrPath(a, d + 1)] == next
      ensures next != null ==> next.routes == Select(Inserted, AtPath(AddrPath(a, d + 1)))
    {
      var w := Width(a.family);
      StepBit(a.value, w, w - 1 - d);
      assert AddrPath(a, d + 1) == Child(AddrPath(a, d), bit != 0);
      if AddrPath(a, d + 1) !in Nodes {
        MissingEndsWalk(a, d + 1);
      }
    }

    /** `lookup`: walk from the root along the bits of the address and
        collect the routes of every node met, shallowest first, until a
        child is missing. An address that does not parse is an error. */
    method Lookup(addr: Option<Addr>) returns (result: Option<seq<RouteInfo>>)
      requires Valid()
      requires addr.Some? ==> ValidAddr(addr.value)
      ensures addr.None? ==> result.None?
      ensures addr.Some? ==> result == Some(Collect(Inserted, addr.value, 0))
    {
      if addr.None? {
        return None;
      }
      var a := addr.value;
      var root := if a.family == V4 then ipv4Root else ipv6Root;
      var addrInt := a.value;
      var maxBits := if a.family == V4 then 32 else 128;
      var matching: seq<RouteInfo> := [];
      var current := root;
      assert AddrPath(a, 0) == Root(a.family);
      if current.HasRoutes() {
        matching := matching + current.routes;
      }
      var bitPos: int := maxBits - 1;
      ghost var d: nat := 0;
      while bitPos >= 0
        invariant -1 <= bitPos <= maxBits - 1 && d == maxBits - 1 - bitPos
        invariant AddrPath(a, d) in Nodes && Nodes[AddrPath(a, d)] == current
        invariant matching == CollectUpTo(Inserted, a, d)
        decreases bitPos
      {
        var bit := And(Shr(addrInt, bitPos), 1);
        var next := if bit == 0 then current.left else current.right;
        WalkStep(a, d, bit, next);
        if next == null {
          CollectStops(Inserted, a, d);
          break;
        }
        current := next;
        if current.HasRoutes() {
          matching := matching + current.routes;
        }
        bitPos := bitPos - 1;
        d := d + 1;
      }
      if bitPos == -1 {
        assert Collect(Inserted, a, d + 1) == [];
        CollectStops(Inserted, a, d);
      }
      result := Some(matching);
    }

    /** The walk `update_metric` makes to the node of a prefix: null when a
        node on the way is missing. */
    method Locate(net: Prefix) returns (node: RadixNode?)
      requires Valid() && ValidPrefix(net)
      ensures node == null <==> PathOf(net) !in Nodes
      ensures node != null ==> node == Nodes[PathOf(net)]
    {
      var root := if net.family == V4 then ipv4Root else ipv6Root;
      var addrInt := net.net;
      var prefixLen := net.len;
      var maxBits := if net.family == V4 then 32 else 128;
      var current := root;
      var bitPos: int := maxBits - 1;
      ghost var path := Root(net.family);
      assert Bits(addrInt, maxBits)[..0] == [];
      while bitPos > maxBits - prefixLen - 1
        invariant maxBits - prefixLen - 1 <= bitPos <= maxBits - 1
        invariant path == Path(net.family, Bits(addrInt, maxBits)[..maxBits - 1 - bitPos])
        invariant path in Nodes && Nodes[path] == current
        decreases bitPos
      {
        var bit := And(Shr(addrInt, bitPos), 1);
        StepBit(addrInt, maxBits, bitPos);
        var next := if bit == 0 then current.left else current.right;
        if next == null {
          var d := maxBits - bitPos;
          assert PathOf(net).bits[..d] == Bits(addrInt, maxBits)[..prefixLen][..d];
          MissingBelowMissing(Nodes, Child(path, bit != 0), PathOf(net));
          return null;
        }
        current := next;
        path := Child(path, bit != 0);
        bitPos := bitPos - 1;
      }
      assert path == PathOf(net);
      node := current;
    }

    /** Nothing is selected for an update below a position without a node. */
    lemma UpdateAtMissing(net: Prefix, text: string, nextHop: string, matchType: string, m: int)
      requires Valid() && ValidPrefix(net) && PathOf(net) !in Nodes
      ensures Select(Inserted, UpdateSelector(net, text, nextHop, matchType)) == []
      ensures Assign(Inserted, UpdateSelector(net, text, nextHop, matchType), m) == Inserted
    {
      var q := PathOf(net);
      var sel := UpdateSelector(net, text, nextHop, matchType);
      NothingBelowMissing(q);
      forall i | 0 <= i < |Inserted| ensures !Pred(sel)(Inserted[i]) {
        var r := Inserted[i];
        assert r in Inserted;
        ExtendsSelf(q);
        if matchType == "exact" {
          assert Selects(sel, r) ==> Selects(AtPath(q), r);
        } else {
          assert Selects(sel, r) ==> Selects(Below(q), r);
        }
      }
      FilterNone(Inserted, Pred(sel));
      AssignNone(Inserted, Pred(sel), m);
    }

    /** The loop over a node's routes in `update_metric` and
        `_update_subtree`: the selected routes get the new metric. */
    static method SetMetrics(routes: seq<RouteInfo>, sel: Selector, metric: int)
      returns (updated: seq<RouteInfo>, count: nat)
      ensures updated == AssignIf(routes, Pred(sel), metric)
      ensures count == |Filter(routes, Pred(sel))|
    {
      updated := routes;
      count := 0;
      var i := 0;
      while i < |routes|
        invariant 0 <= i <= |routes| && |updated| == |routes|
        invariant forall j :: 0 <= j < i ==> updated[j] == SetMetric(routes[j], Pred(sel), metric)
        invariant forall j :: i <= j < |routes| ==> updated[j] == routes[j]
        invariant count == |Filter(routes[..i], Pred(sel))|
      {
        FilterStep(routes, i, Pred(sel));
        if Selects(sel, updated[i]) {
          updated := updated[i := updated[i].(metric := metric)];
          count := count + 1;
        }
        i := i + 1;
      }
      assert routes[..i] == routes;
    }

    /** Update the routes at the node of `p` that `sel` selects. */
    method UpdateNode(node: RadixNode, ghost p: Path, sel: Selector, metric: int) returns (count: nat)
      requires Valid() && p in Nodes && Nodes[p] == node
      modifies this, node
      ensures Valid() && Nodes == old(Nodes) && routeCount == old(routeCount)
      ensures ipv4Root == old(ipv4Root) && ipv6Root == old(ipv6Root)
      ensures Inserted == Assign(old(Inserted), Both(AtPath(p), sel), metric)
      ensures count == |Select(old(Inserted), Both(AtPath(p), sel))|
    {
      var updated;
      updated, count := SetMetrics(node.routes, sel, metric);
      node.routes := updated;
      ghost var before := Inserted;
      Inserted := Assign(Inserted, Both(AtPath(p), sel), metric);
      CountAtNode(before, p, sel);
      forall q {:trigger Nodes[q]} | q in Nodes
        ensures Nodes[q].left == ChildNode(Nodes, q, false) && Nodes[q].right == ChildNode(Nodes, q, true)
        ensures Nodes[q].routes == Select(Inserted, AtPath(q)) && Nodes[q].pos == q
      {
        AssignAtNode(before, p, q, sel, metric);
      }
      PlacedAssign(Nodes, before, Pred(Both(AtPath(p), sel)), metric);
    }

    /** Setting metrics moves no route to another node. */
    static lemma PlacedAssign(nodes: map<Path, RadixNode>, s: seq<RouteInfo>, f: RouteInfo -> bool, m: int)
      requires forall r :: r in s ==> ValidRoute(r) && PathOf(r.network) in nodes
      ensures forall r :: r in AssignIf(s, f, m) ==> ValidRoute(r) && PathOf(r.network) in nodes
    {
      forall r | r in AssignIf(s, f, m) ensures ValidRoute(r) && PathOf(r.network) in nodes {
        AssignMembers(s, f, m, r);
      }
    }

    /** `_update_subtree`: update every route in the subtree at `p` with the
        given next hop, the node's own routes first, then the left and the
        right subtree. */
    method UpdateSubtree(node: RadixNode?, ghost p: Path, nextHop: string, metric: int) returns (count: nat)
      requires Valid() && |p.bits| <= Width(p.family) + 1
      requires node == if p in Nodes then Nodes[p] else null
      modifies this, Nodes.Values
      ensures Valid() && Nodes == old(Nodes) && routeCount == old(routeCount)
      ensures ipv4Root == old(ipv4Root) && ipv6Root == old(ipv6Root)
      ensures Inserted == Assign(old(Inserted), Both(Below(p), NextHop(nextHop)), metric)
      ensures count == |Select(old(Inserted), Both(Below(p), NextHop(nextHop)))|
      decreases Width(p.family) + 1 - |p.bits|
    {
      var sel := Both(Below(p), NextHop(nextHop));
      if node == null {
        NothingBelowMissing(p);
        forall i | 0 <= i < |Inserted| ensures !Pred(sel)(Inserted[i]) {
          assert Inserted[i] in Inserted;
          assert Selects(sel, Inserted[i]) ==> Selects(Below(p), Inserted[i]);
        }
        FilterNone(Inserted, Pred(sel));
        AssignNone(Inserted, Pred(sel), metric);
        return 0;
      }
      ghost var i0 := Inserted;
      count := UpdateNode(node, p, NextHop(nextHop), metric);
      ghost var i1 := Inserted;
      var c1 := UpdateSubtree(node.left, Child(p, false), nextHop, metric);
      ghost var i2 := Inserted;
      var c2 := UpdateSubtree(node.right, Child(p, true), nextHop, metric);
      count := count + c1 + c2;
      AssignBelow(i0, p, NextHop(nextHop), metric);
      CountBelow(i0, p, NextHop(nextHop));
      PredIgnoresMetric(Both(Below(Child(p, false)), NextHop(nextHop)));
      PredIgnoresMetric(Both(Below(Child(p, true)), NextHop(nextHop)));
      CountAfterAssign(i0, Pred(Both(AtPath(p), NextHop(nextHop))), Pred(Both(Below(Child(p, false)), NextHop(nextHop))), metric);
      CountAfterAssign(i0, Pred(Both(AtPath(p), NextHop(nextHop))), Pred(Both(Below(Child(p, true)), NextHop(nextHop))), metric);
      CountAfterAssign(i1, Pred(Both(Below(Child(p, false)), NextHop(nextHop))), Pred(Both(Below(Child(p, true)), NextHop(nextHop))), metric);
    }

    /** `update_metric`: walk to the node of the prefix; with match type
        "exact" update the routes there whose next hop and prefix text
        match, with any other match type every route of the subtree whose
        next hop matches. Returns the number of routes updated, 0 when the
        walk falls off the tree; a prefix that does not parse is an error. */
    method UpdateMetric(network: Option<Prefix>, withPrefixLen: string, nextHop: string, metric: int,
                        matchType: string) returns (result: Option<nat>)
      requires Valid()
      requires network.Some? ==> ValidPrefix(network.value)
      modifies this, Nodes.Values
      ensures Valid() && Nodes == old(Nodes) && routeCount == old(routeCount)
      ensures network.None? ==> result.None? && Inserted == old(Inserted)
      ensures network.Some? ==>
        var sel := UpdateSelector(network.value, withPrefixLen, nextHop, matchType);
        result == Some(|Select(old(Inserted), sel)|) && Inserted == Assign(old(Inserted), sel, metric)
    {
      if network.None? {
        return None;
      }
      var net := network.value;
      var node := Locate(net);
      if node == null {
        UpdateAtMissing(net, withPrefixLen, nextHop, matchType, metric);
        return Some(0);
      }
      var count;
      if matchType == "exact" {
        count := UpdateNode(node, PathOf(net), Both(NextHop(nextHop), PrefixText(withPrefixLen)), metric);
      } else {
        count := UpdateSubtree(node, PathOf(net), nextHop, metric);
      }
      result := Some(count);
    }

    /** `_collect_routes`: append the routes of the subtree at `p` to
        `routes`, node first, then left, then right. */
    method CollectRoutes(node: RadixNode?, ghost p: Path, routes: seq<RouteInfo>) returns (out: seq<RouteInfo>)
      requires Valid() && |p.bits| <= Width(p.family) + 1
      requires node == if p in Nodes then Nodes[p] else null
      ensures multiset(out) == multiset(routes) + multiset(Select(Inserted, Below(p)))
      decreases Width(p.family) + 1 - |p.bits|
    {
      if node == null {
        NothingBelowMissing(p);
        forall i | 0 <= i < |Inserted| ensures !Pred(Below(p))(Inserted[i]) {
          assert Inserted[i] in Inserted;
        }
        FilterNone(Inserted, Pred(Below(p)));
        return routes;
      }
      out := routes + node.routes;
      out := CollectRoutes(node.left, Child(p, false), out);
      out := CollectRoutes(node.right, Child(p, true), out);
      SelectBelow(Inserted, p);
    }

    /** `get_all_routes`: every route of the IPv4 trie, then of the IPv6
        trie; as a collection, exactly the inserted routes. */
    method GetAllRoutes() returns (routes: seq<RouteInfo>)
      requires Valid()
      ensures multiset(routes) == multiset(Inserted)
      ensures |routes| == routeCount
    {
      routes := [];
      routes := CollectRoutes(ipv4Root, Root(V4), routes);
      routes := CollectRoutes(ipv6Root, Root(V6), routes);
      forall i | 0 <= i < |Inserted| ensures Inserted[i].network.len <= Width(Inserted[i].network.family) {
        assert Inserted[i] in Inserted;
      }
      SelectFamilies(Inserted);
      assert |multiset(routes)| == |routes|;
    }

    /** The bit `(a >> pos) & 1` the walk tests is the next bit of the
        position path. */
    static lemma StepBit(a: nat, w: nat, pos: nat)
      requires pos < w
      ensures Bits(a, w)[..w - pos] == Bits(a, w)[..w - 1 - pos] + [And(Shr(a, pos), 1) != 0]
    {
      AndOnes(Shr(a, pos), 1);
      BitsIndex(a, w, w - 1 - pos);
      assert Bits(a, w)[..w - pos] == Bits(a, w)[..w - 1 - pos] + [Bits(a, w)[w - 1 - pos]];
    }
  }

  /** `update_metric` is idempotent: repeated with the same arguments it
      selects as many routes, so returns the same count, and leaves the
      routes as the first call left them. */
  lemma UpdateIdempotent(s: seq<RouteInfo>, sel: Selector, m: int)
    ensures Assign(Assign(s, sel, m), sel, m) == Assign(s, sel, m)
    ensures |Select(Assign(s, sel, m), sel)| == |Select(s, sel)|
  {
    PredIgnoresMetric(sel);
    AssignTwice(s, Pred(sel), Pred(sel), Pred(sel), m);
    CountAfterAssign(s, Pred(sel), Pred(sel), m);
  }
}
