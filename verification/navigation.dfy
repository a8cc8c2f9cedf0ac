/** The navigation tree of a rendered documentation site, as an arena of nodes,
    and the specification of the per-page annotation pass over it.

    Node `i` of a tree `items` is `items[i]`; node 0 is the root. Only the
    structural part of a node lives here (its URLs, the globals mark, the
    parent and child links); the three display flags that the pass rewrites
    are mutable state of the `Output.NavigationTree` class. */
module Navigation {

  datatype Option<T> = None | Some(value: T)

  /** The structural part of one navigation item. A list the source leaves
      undefined (a leaf's `children`, a missing `dedicatedUrls`) is the empty
      sequence here. */
  datatype Item = Item(
    url: Option<string>,
    dedicatedUrls: seq<string>,
    isGlobals: bool,
    parent: Option<nat>,
    children: seq<nat>)

  /** The three display flags of one node, which the pass rewrites. */
  datatype Flags = Flags(isCurrent: bool, isInPath: bool, isVisible: bool)

  const Root: nat := 0

  /** The two bounds of the fan-out cap: children of a path node are revealed
      while `depth < DepthCap` or `count < CountCap`. */
  const DepthCap: int := 2
  const CountCap: int := 30

  /** A finite, acyclic tree rooted at node 0 whose parent and child links agree.
      Every node but the root has a parent with a smaller index. */
  ghost predicate WellFormed(items: seq<Item>)
  {
    ParentsBefore(items) && ChildrenAfter(items) && ChildrenDistinct(items) &&
    (forall i, c :: 0 <= i < |items| && c in items[i].children ==> items[c].parent == Some(i)) &&
    (forall i, c {:trigger items[c].parent, items[i].children} ::
       0 <= i < |items| && 0 <= c < |items| && items[c].parent == Some(i) ==> c in items[i].children)
  }

  /** Every node but the root has a parent with a smaller index, so walking
      up the parent links always reaches the root. */
  ghost predicate ParentsBefore(items: seq<Item>)
  {
    |items| > 0 &&
    items[Root].parent == None &&
    (forall i :: 0 < i < |items| ==> items[i].parent.Some? && items[i].parent.value < i)
  }

  /** Every child link names a node of the tree with a larger index, so
      walking down the child links always stops. */
  ghost predicate ChildrenAfter(items: seq<Item>)
  {
    forall i, c :: 0 <= i < |items| && c in items[i].children ==> i < c < |items|
  }

  /** No node lists the same child twice. */
  ghost predicate ChildrenDistinct(items: seq<Item>)
  {
    forall i, a, b :: 0 <= i < |items| && 0 <= a < b < |items[i].children| ==>
      items[i].children[a] != items[i].children[b]
  }

  /** Does the item stand for the page with URL `pageUrl`? The source compares
      with loose equality, under which two absent URLs are equal. */
  predicate IsMatch(item: Item, pageUrl: Option<string>)
    ensures item.url == pageUrl ==> IsMatch(item, pageUrl)
    ensures pageUrl.Some? && pageUrl.value in item.dedicatedUrls ==> IsMatch(item, pageUrl)
    ensures pageUrl.None? ==> (IsMatch(item, pageUrl) <==> item.url.None?)
  {
    item.url == pageUrl || (pageUrl.Some? && pageUrl.value in item.dedicatedUrls)
  }

  lemma ChildAfterParent(items: seq<Item>, i: nat, c: nat)
    requires ChildrenAfter(items) && i < |items| && c in items[i].children
    ensures i < c < |items|
  {
  }

  // ---------------------------------------------------------------------------
  // The upward walk

  /** The nodes the upward walk from `i` visits: `i`, its parent, and so on up
      to the root. The walk always ends at the root. */
  ghost function Path(items: seq<Item>, i: nat): (p: seq<nat>)
    requires ParentsBefore(items) && i < |items|
    ensures |p| > 0 && p[0] == i && p[|p| - 1] == Root
    ensures forall s :: 0 <= s < |p| ==> p[s] <= i
    decreases i
  {
    match items[i].parent
    case None => [i]
    case Some(q) => [i] + Path(items, q)
  }

  /** Each step of the walk follows a parent link, and only the last node
      has no parent. */
  lemma {:induction false} PathStep(items: seq<Item>, i: nat, s: nat)
    requires ParentsBefore(items) && i < |items| && s < |Path(items, i)|
    ensures items[Path(items, i)[s]].parent ==
            if s + 1 < |Path(items, i)| then Some(Path(items, i)[s + 1]) else None
    decreases i
  {
    match items[i].parent
    case None =>
    case Some(q) =>
      if s > 0 {
        PathStep(items, q, s - 1);
      }
  }

  /** The parent of a node on a walk is on the same walk. */
  lemma ParentOnPath(items: seq<Item>, i: nat, k: nat)
    requires ParentsBefore(items) && i < |items| && k < |items|
    requires k in Path(items, i) && items[k].parent.Some?
    ensures items[k].parent.value in Path(items, i)
  {
    var p := Path(items, i);
    var s :| 0 <= s < |p| && p[s] == k;
    PathStep(items, i, s);
  }

  /** Total number of children of the first `n` nodes of the walk from `m`. */
  ghost function ChildrenSeen(items: seq<Item>, m: nat, n: nat): nat
    requires ParentsBefore(items) && m < |items| && n <= |Path(items, m)|
  {
    if n == 0 then 0
    else ChildrenSeen(items, m, n - 1) + |items[Path(items, m)[n - 1]].children|
  }

  /** Walking further never lowers the number of children seen. */
  lemma {:induction false} ChildrenSeenMonotone(items: seq<Item>, m: nat, a: nat, b: nat)
    requires ParentsBefore(items) && m < |items| && a <= b <= |Path(items, m)|
    ensures ChildrenSeen(items, m, a) <= ChildrenSeen(items, m, b)
    decreases b - a
  {
    if a < b {
      ChildrenSeenMonotone(items, m, a, b - 1);
    }
  }

  /** The value `depth` holds at the `s`-th node of the walk from `m`, after
      that step's increment: it starts at -1 for a globals item, else at 0. */
  function DepthAt(items: seq<Item>, m: nat, s: nat): (d: int)
    requires m < |items|
    ensures d >= s
    ensures d < DepthCap <==> s == 0 || (s == 1 && items[m].isGlobals)
  {
    (if items[m].isGlobals then -1 else 0) + s + 1
  }

  /** The value `count` holds at the `s`-th node of the walk from `m`, after
      that step's increments: it starts at 1 and grows by one per step plus
      the number of children of each node visited so far. */
  ghost function CountAt(items: seq<Item>, m: nat, s: nat): (c: int)
    requires ParentsBefore(items) && m < |items| && s < |Path(items, m)|
    ensures c >= s + 2 + |items[Path(items, m)[s]].children|
  {
    1 + (s + 1) + ChildrenSeen(items, m, s + 1)
  }

  /** Does the walk from `m` reveal the children of its `s`-th node? */
  ghost predicate RevealsAt(items: seq<Item>, m: nat, s: nat)
    requires ParentsBefore(items) && m < |items| && s < |Path(items, m)|
    ensures RevealsAt(items, m, s) ==> |items[Path(items, m)[s]].children| > 0
    ensures |items[Path(items, m)[s]].children| > 0 && (s == 0 || (s == 1 && items[m].isGlobals)) ==>
      RevealsAt(items, m, s)
  {
    |items[Path(items, m)[s]].children| > 0 &&
    (DepthAt(items, m, s) < DepthCap || CountAt(items, m, s) < CountCap)
  }

  /** One step of the walk from `m` at its `s`-th node, taken with the
      counters and flags the first `s` steps leave, leaves the counters and
      flags of the first `s + 1` steps. */
  lemma WalkStep(items: seq<Item>, m: nat, s: nat, f: seq<Flags>, depth: int, count: int, g: seq<Flags>)
    requires ParentsBefore(items) && m < |items| && s < |Path(items, m)| && |f| == |items|
    requires depth == (if items[m].isGlobals then -1 else 0) + s
    requires count == 1 + s + ChildrenSeen(items, m, s)
    requires var i, n := Path(items, m)[s], |items[Path(items, m)[s]].children|;
      g == StepFlags(items, i, WalkPrefix(items, m, s, f), n > 0 && (depth + 1 < DepthCap || count + 1 + n < CountCap))
    ensures count + 1 + |items[Path(items, m)[s]].children| == 1 + (s + 1) + ChildrenSeen(items, m, s + 1)
    ensures g == WalkPrefix(items, m, s + 1, f)
  {
  }

  /** Is `k` a child that the first `n` steps of the walk from `m` reveal? */
  ghost predicate RevealedWithin(items: seq<Item>, m: nat, n: nat, k: nat)
    requires ParentsBefore(items) && m < |items| && n <= |Path(items, m)| && k < |items|
  {
    exists s :: 0 <= s < n && k in items[Path(items, m)[s]].children && RevealsAt(items, m, s)
  }

  /** Is `k` a child that the whole walk from `m` reveals? */
  ghost predicate ChildRevealed(items: seq<Item>, m: nat, k: nat)
    requires ParentsBefore(items) && m < |items| && k < |items|
  {
    RevealedWithin(items, m, |Path(items, m)|, k)
  }

  /** The fan-out cap, once engaged, stays engaged: after a step at depth at
      least 2 where the count reached 30, no later step reveals children. */
  lemma CapIsFinal(items: seq<Item>, m: nat, s: nat, t: nat)
    requires ParentsBefore(items) && m < |items| && s <= t < |Path(items, m)|
    requires DepthAt(items, m, s) >= DepthCap && CountAt(items, m, s) >= CountCap
    ensures !RevealsAt(items, m, t)
  {
    ChildrenSeenMonotone(items, m, s + 1, t + 1);
  }

  // ---------------------------------------------------------------------------
  // The pre-order reset walk

  /** The nodes of the subtree at `i`, in the pre-order the recursive reset
      visits them. */
  ghost function PreOrder(items: seq<Item>, i: nat): (r: seq<nat>)
    requires ChildrenAfter(items) && i < |items|
    ensures |r| > 0 && r[0] == i
    ensures forall j :: 0 <= j < |r| ==> i <= r[j] < |items|
    decreases |items| - i, 1
  {
    [i] + Forest(items, i, |items[i].children|)
  }

  /** The pre-orders of the subtrees at the first `n` children of `i`, one
      after the other. */
  ghost function Forest(items: seq<Item>, i: nat, n: nat): (r: seq<nat>)
    requires ChildrenAfter(items) && i < |items| && n <= |items[i].children|
    ensures forall j :: 0 <= j < |r| ==> i < r[j] < |items|
    decreases |items| - i, 0, n
  {
    if n == 0 then []
    else
      var c := items[i].children[n - 1];
      ChildAfterParent(items, i, c);
      Forest(items, i, n - 1) + PreOrder(items, c)
  }

  /** The subtree of a child is part of its parent's subtree. */
  lemma {:induction false} ForestHasChild(items: seq<Item>, i: nat, n: nat, k: nat, x: nat)
    requires ChildrenAfter(items) && i < |items| && k < n <= |items[i].children|
    requires items[i].children[k] < |items| && x in PreOrder(items, items[i].children[k])
    ensures x in Forest(items, i, n)
    decreases n
  {
    if k != n - 1 {
      ForestHasChild(items, i, n - 1, k, x);
    }
  }

  /** A node in the subtree of `a` is in the subtree of the root. */
  lemma {:induction false} InRootSubtree(items: seq<Item>, a: nat, x: nat)
    requires WellFormed(items) && a < |items| && x in PreOrder(items, a)
    ensures x in PreOrder(items, Root)
    decreases a
  {
    if a != Root {
      var q := items[a].parent.value;
      var k :| 0 <= k < |items[q].children| && items[q].children[k] == a;
      ForestHasChild(items, q, |items[q].children|, k, x);
      InRootSubtree(items, q, x);
    }
  }

  /** The reset walk from the root visits every node of the tree. */
  lemma RootSubtreeIsAll(items: seq<Item>)
    requires WellFormed(items)
    ensures forall x :: 0 <= x < |items| <==> x in PreOrder(items, Root)
  {
    forall x | 0 <= x < |items|
      ensures x in PreOrder(items, Root)
    {
      InRootSubtree(items, x, x);
    }
  }

  /** No node occurs twice in `s`. */
  ghost predicate Distinct(s: seq<nat>)
  {
    forall a, b :: 0 <= a < b < |s| ==> s[a] != s[b]
  }

  lemma DistinctAppend(a: seq<nat>, b: seq<nat>)
    requires Distinct(a) && Distinct(b) && forall x :: x in a ==> x !in b
    ensures Distinct(a + b)
  {
    forall p, q | 0 <= p < q < |a + b|
      ensures (a + b)[p] != (a + b)[q]
    {
      if p < |a| && |a| <= q {
        assert (a + b)[p] in a && (a + b)[q] == b[q - |a|];
      }
    }
  }

  /** A node of `Forest(items, i, n)` lies in the subtree of one of the first
      `n` children of `i`, the `k`-th. */
  lemma {:induction false} ForestMember(items: seq<Item>, i: nat, n: nat, x: nat) returns (k: nat)
    requires ChildrenAfter(items) && i < |items| && n <= |items[i].children| && x in Forest(items, i, n)
    ensures k < n && items[i].children[k] < |items| && x in PreOrder(items, items[i].children[k])
    decreases n
  {
    var c := items[i].children[n - 1];
    ChildAfterParent(items, i, c);
    if x in PreOrder(items, c) {
      k := n - 1;
    } else {
      k := ForestMember(items, i, n - 1, x);
    }
  }

  /** Every node of the subtree at `c` other than `c` itself has its parent
      in that subtree. */
  lemma {:induction false} SubtreeParent(items: seq<Item>, c: nat, x: nat)
    requires WellFormed(items) && c < |items| && x < |items|
    ensures x in PreOrder(items, c) && x != c ==>
      items[x].parent.Some? && items[x].parent.value in PreOrder(items, c)
    decreases |items| - c
  {
    if x in PreOrder(items, c) && x != c {
      var n := |items[c].children|;
      var k := ForestMember(items, c, n, x);
      var d := items[c].children[k];
      assert d in items[c].children;
      if x == d {
        assert PreOrder(items, c)[0] == c;
      } else {
        SubtreeParent(items, d, x);
        ForestHasChild(items, c, n, k, items[x].parent.value);
      }
    }
  }

  /** The subtrees of two different children of one node share no node. */
  lemma {:induction false} SiblingSubtreesDisjoint(items: seq<Item>, i: nat, c1: nat, c2: nat, x: nat)
    requires WellFormed(items) && i < |items| && c1 in items[i].children && c2 in items[i].children
    requires c1 != c2 && x < |items|
    ensures !(x in PreOrder(items, c1) && x in PreOrder(items, c2))
    decreases x
  {
    SubtreeParent(items, c1, x);
    SubtreeParent(items, c2, x);
    if x != c1 && x != c2 && items[x].parent.Some? {
      SiblingSubtreesDisjoint(items, i, c1, c2, items[x].parent.value);
    }
  }

  /** The reset visits no node of a subtree twice. */
  lemma {:induction false} PreOrderDistinct(items: seq<Item>, i: nat)
    requires WellFormed(items) && i < |items|
    ensures Distinct(PreOrder(items, i))
    decreases |items| - i, 1
  {
    var forest := Forest(items, i, |items[i].children|);
    ForestDistinct(items, i, |items[i].children|);
    DistinctAppend([i], forest);
  }

  lemma {:induction false} ForestDistinct(items: seq<Item>, i: nat, n: nat)
    requires WellFormed(items) && i < |items| && n <= |items[i].children|
    ensures Distinct(Forest(items, i, n))
    decreases |items| - i, 0, n
  {
    if n > 0 {
      var c := items[i].children[n - 1];
      ChildAfterParent(items, i, c);
      ForestDistinct(items, i, n - 1);
      PreOrderDistinct(items, c);
      forall x | x in Forest(items, i, n - 1)
        ensures x !in PreOrder(items, c)
      {
        var k := ForestMember(items, i, n - 1, x);
        SiblingSubtreesDisjoint(items, i, items[i].children[k], c, x);
      }
      DistinctAppend(Forest(items, i, n - 1), PreOrder(items, c));
    }
  }

  /** The reset from the root visits every node of the tree exactly once. */
  lemma RootPreOrderExact(items: seq<Item>)
    requires WellFormed(items)
    ensures Distinct(PreOrder(items, Root)) && |PreOrder(items, Root)| == |items|
  {
    var order := PreOrder(items, Root);
    PreOrderDistinct(items, Root);
    RootSubtreeIsAll(items);
    DistinctSize(order);
    assert Members(order) == Below(|items|);
  }

  /** The nodes that occur in `s`. */
  ghost function Members(s: seq<nat>): (r: set<nat>)
    ensures forall x :: x in r <==> x in s
  {
    if s == [] then {}
    else
      assert s == s[..|s| - 1] + [s[|s| - 1]];
      Members(s[..|s| - 1]) + {s[|s| - 1]}
  }

  /** A sequence with no repeats has as many members as elements. */
  lemma {:induction false} DistinctSize(s: seq<nat>)
    requires Distinct(s)
    ensures |Members(s)| == |s|
  {
    if s != [] {
      var init, last := s[..|s| - 1], s[|s| - 1];
      DistinctSize(init);
      assert last !in init by {
        forall j | 0 <= j < |init| ensures init[j] != last {
          assert init[j] == s[j];
        }
      }
    }
  }

  /** The node indices below `n`. */
  ghost function Below(n: nat): (r: set<nat>)
    ensures forall x: nat :: x in r <==> x < n
    ensures |r| == n
  {
    if n == 0 then {}
    else
      var below := Below(n - 1);
      assert n - 1 !in below;
      below + {n - 1}
  }

  /** The nodes of `s` that stand for the page, in the order of `s`. */
  function Matched(items: seq<Item>, pageUrl: Option<string>, s: seq<nat>): (r: seq<nat>)
    requires forall j :: 0 <= j < |s| ==> s[j] < |items|
    ensures forall j :: 0 <= j < |r| ==> r[j] < |items|
  {
    if s == [] then []
    else (if IsMatch(items[s[0]], pageUrl) then [s[0]] else []) + Matched(items, pageUrl, s[1..])
  }

  /** The nodes found are exactly the nodes of `s` that stand for the page. */
  lemma {:induction false} MatchedMembers(items: seq<Item>, pageUrl: Option<string>, s: seq<nat>)
    requires forall j :: 0 <= j < |s| ==> s[j] < |items|
    ensures forall x :: x in Matched(items, pageUrl, s) <==> x in s && IsMatch(items[x], pageUrl)
  {
    if s != [] {
      MatchedMembers(items, pageUrl, s[1..]);
    }
  }

  /** The first phase over the whole tree finds exactly the nodes that
      stand for the page. */
  lemma CurrentNodes(items: seq<Item>, pageUrl: Option<string>)
    requires WellFormed(items)
    ensures forall m :: m in Matched(items, pageUrl, PreOrder(items, Root)) <==>
      0 <= m < |items| && IsMatch(items[m], pageUrl)
  {
    RootSubtreeIsAll(items);
    MatchedMembers(items, pageUrl, PreOrder(items, Root));
  }

  /** The nodes found in a sequence without repeats have no repeats. */
  lemma {:induction false} MatchedDistinct(items: seq<Item>, pageUrl: Option<string>, s: seq<nat>)
    requires (forall j :: 0 <= j < |s| ==> s[j] < |items|) && Distinct(s)
    ensures Distinct(Matched(items, pageUrl, s))
  {
    if s != [] {
      MatchedDistinct(items, pageUrl, s[1..]);
      MatchedMembers(items, pageUrl, s[1..]);
      assert s[0] !in s[1..];
      DistinctAppend(if IsMatch(items[s[0]], pageUrl) then [s[0]] else [], Matched(items, pageUrl, s[1..]));
    }
  }

  /** The first phase over the whole tree finds no node twice. */
  lemma CurrentNodesDistinct(items: seq<Item>, pageUrl: Option<string>)
    requires WellFormed(items)
    ensures Distinct(Matched(items, pageUrl, PreOrder(items, Root)))
  {
    PreOrderDistinct(items, Root);
    MatchedDistinct(items, pageUrl, PreOrder(items, Root));
  }

  lemma {:induction false} MatchedAppend(items: seq<Item>, pageUrl: Option<string>, a: seq<nat>, b: seq<nat>)
    requires forall j :: 0 <= j < |a| ==> a[j] < |items|
    requires forall j :: 0 <= j < |b| ==> b[j] < |items|
    ensures Matched(items, pageUrl, a + b) == Matched(items, pageUrl, a) + Matched(items, pageUrl, b)
  {
    if a != [] {
      assert (a + b)[1..] == a[1..] + b;
      MatchedAppend(items, pageUrl, a[1..], b);
    } else {
      assert a + b == b;
    }
  }

  lemma AppendAssociative(a: seq<nat>, b: seq<nat>, c: seq<nat>)
    ensures (a + b) + c == a + (b + c)
  {
  }

  // ---------------------------------------------------------------------------
  // The pass as a function of the flags before it

  /** The flags the reset gives a node: not current, not in the path, and
      visible only when it is a globals item. */
  function ResetFlags(item: Item): Flags
  {
    Flags(false, false, item.isGlobals)
  }

  /** `f` with the nodes of `s` reset. */
  ghost function ResetNodes(items: seq<Item>, f: seq<Flags>, s: seq<nat>): seq<Flags>
    requires |f| == |items|
  {
    seq(|f|, k requires 0 <= k < |f| => if k in s then ResetFlags(items[k]) else f[k])
  }

  lemma ResetNodesAppend(items: seq<Item>, f: seq<Flags>, a: seq<nat>, b: seq<nat>)
    requires |f| == |items|
    ensures ResetNodes(items, ResetNodes(items, f, a), b) == ResetNodes(items, f, a + b)
  {
  }

  /** The reset of the subtree at `i` resets `i` itself, finds it if it
      matches, and then does the same for the subtrees of its children. */
  lemma SubtreeSplit(items: seq<Item>, pageUrl: Option<string>, f: seq<Flags>, acc: seq<nat>, i: nat)
    requires ChildrenAfter(items) && i < |items| && |f| == |items|
    ensures acc + Matched(items, pageUrl, PreOrder(items, i)) ==
      (acc + if IsMatch(items[i], pageUrl) then [i] else []) + Matched(items, pageUrl, Forest(items, i, |items[i].children|))
    ensures ResetNodes(items, f, PreOrder(items, i)) ==
      ResetNodes(items, f[i := ResetFlags(items[i])], Forest(items, i, |items[i].children|))
  {
    var rest := Forest(items, i, |items[i].children|);
    MatchedAppend(items, pageUrl, [i], rest);
    assert Matched(items, pageUrl, [i]) == if IsMatch(items[i], pageUrl) then [i] else [] by {
      assert [i][1..] == [];
    }
    AppendAssociative(acc, Matched(items, pageUrl, [i]), Matched(items, pageUrl, rest));
    assert f[i := ResetFlags(items[i])] == ResetNodes(items, f, [i]);
    ResetNodesAppend(items, f, [i], rest);
  }

  /** Before the first child, the reset of the children has found and reset
      nothing. */
  lemma ForestStart(items: seq<Item>, pageUrl: Option<string>, f: seq<Flags>, acc: seq<nat>, i: nat)
    requires ChildrenAfter(items) && i < |items| && |f| == |items|
    ensures acc + Matched(items, pageUrl, Forest(items, i, 0)) == acc
    ensures ResetNodes(items, f, Forest(items, i, 0)) == f
  {
    assert acc + [] == acc;
  }

  /** Descending into child `n` of `i` adds that child's subtree, both to
      the nodes found and to the nodes reset. */
  lemma ForestStep(items: seq<Item>, pageUrl: Option<string>, f: seq<Flags>, acc: seq<nat>, i: nat, n: nat)
    requires ChildrenAfter(items) && i < |items| && n < |items[i].children| && |f| == |items|
    ensures i < items[i].children[n] < |items|
    ensures (acc + Matched(items, pageUrl, Forest(items, i, n))) + Matched(items, pageUrl, PreOrder(items, items[i].children[n]))
            == acc + Matched(items, pageUrl, Forest(items, i, n + 1))
    ensures ResetNodes(items, ResetNodes(items, f, Forest(items, i, n)), PreOrder(items, items[i].children[n]))
            == ResetNodes(items, f, Forest(items, i, n + 1))
  {
    var c := items[i].children[n];
    assert c in items[i].children;
    var v, sub := Forest(items, i, n), PreOrder(items, c);
    assert Forest(items, i, n + 1) == v + sub;
    MatchedAppend(items, pageUrl, v, sub);
    AppendAssociative(acc, Matched(items, pageUrl, v), Matched(items, pageUrl, sub));
    ResetNodesAppend(items, f, v, sub);
  }

  /** `f` with the children of node `i` made visible. */
  ghost function RevealChildrenOf(items: seq<Item>, i: nat, f: seq<Flags>): seq<Flags>
    requires i < |items| && |f| == |items|
  {
    seq(|f|, k requires 0 <= k < |f| =>
      if k in items[i].children then f[k].(isVisible := true) else f[k])
  }

  /** `g` after one step of a walk at node `i`: `i` goes into the path and
      becomes visible, and when `opens` holds its children become visible. */
  ghost function StepFlags(items: seq<Item>, i: nat, g: seq<Flags>, opens: bool): (r: seq<Flags>)
    requires i < |items| && |g| == |items|
    ensures |r| == |g|
  {
    var h := g[i := g[i].(isInPath := true, isVisible := true)];
    if opens then RevealChildrenOf(items, i, h) else h
  }

  /** `f` after the walk from current node `m` has marked it current and
      taken its first `n` steps; each step puts its node into the path, makes
      it visible, and reveals its children if the cap check passes there. */
  ghost function WalkPrefix(items: seq<Item>, m: nat, n: nat, f: seq<Flags>): (g: seq<Flags>)
    requires ParentsBefore(items) && m < |items| && n <= |Path(items, m)| && |f| == |items|
    ensures |g| == |f|
    decreases n
  {
    if n == 0 then f[m := f[m].(isCurrent := true)]
    else StepFlags(items, Path(items, m)[n - 1], WalkPrefix(items, m, n - 1, f), RevealsAt(items, m, n - 1))
  }

  /** `f` after the whole walk from current node `m`. */
  ghost function Walk(items: seq<Item>, m: nat, f: seq<Flags>): seq<Flags>
    requires ParentsBefore(items) && m < |items| && |f| == |items|
  {
    WalkPrefix(items, m, |Path(items, m)|, f)
  }

  /** The flags of node `k`, which had flags `fk`, after the first `n` steps
      of the walk from `m`: current if it is `m`, in the path if the walk has
      passed it, and visible if the walk has passed it or revealed it. */
  ghost function WalkedFlags(items: seq<Item>, m: nat, n: nat, fk: Flags, k: nat): Flags
    requires ParentsBefore(items) && m < |items| && n <= |Path(items, m)| && k < |items|
  {
    var p := Path(items, m)[..n];
    Flags(fk.isCurrent || k == m, fk.isInPath || k in p, fk.isVisible || k in p || RevealedWithin(items, m, n, k))
  }

  /** The step-by-step walk leaves every node with its `WalkedFlags`: the
      walk only ever sets flags, and each flag it sets has a reason. */
  lemma {:induction false} WalkPrefixAt(items: seq<Item>, m: nat, n: nat, f: seq<Flags>, k: nat)
    requires ParentsBefore(items) && m < |items| && n <= |Path(items, m)| && |f| == |items| && k < |items|
    ensures WalkPrefix(items, m, n, f)[k] == WalkedFlags(items, m, n, f[k], k)
    decreases n
  {
    if n == 0 {
      WalkStartAt(items, m, f, k);
    } else {
      WalkPrefixAt(items, m, n - 1, f, k);
      WalkStepAt(items, m, n - 1, f, k);
    }
  }

  /** Before its first step the walk from `m` has only marked `m` current. */
  lemma WalkStartAt(items: seq<Item>, m: nat, f: seq<Flags>, k: nat)
    requires ParentsBefore(items) && m < |items| && |f| == |items| && k < |items|
    ensures WalkPrefix(items, m, 0, f)[k] == WalkedFlags(items, m, 0, f[k], k)
  {
    assert Path(items, m)[..0] == [];
  }

  /** If the first `n` steps leave node `k` with its `WalkedFlags`, so does
      step `n + 1`. */
  lemma WalkStepAt(items: seq<Item>, m: nat, n: nat, f: seq<Flags>, k: nat)
    requires ParentsBefore(items) && m < |items| && n < |Path(items, m)| && |f| == |items| && k < |items|
    requires WalkPrefix(items, m, n, f)[k] == WalkedFlags(items, m, n, f[k], k)
    ensures WalkPrefix(items, m, n + 1, f)[k] == WalkedFlags(items, m, n + 1, f[k], k)
  {
    var path := Path(items, m);
    RevealedWithinStep(items, m, n, k);
    StepFlagsAt(items, path[n], WalkPrefix(items, m, n, f), RevealsAt(items, m, n), k);
    PrefixStep(path, n, k);
  }

  /** Membership in a prefix grows by one element per step. */
  lemma PrefixStep(p: seq<nat>, n: nat, k: nat)
    requires n < |p|
    ensures k in p[..n + 1] <==> k in p[..n] || k == p[n]
  {
    assert p[..n + 1] == p[..n] + [p[n]];
  }

  /** One step at node `i` sets the path and visibility flags of `i`, the
      visibility flag of its children when `opens` holds, and nothing else. */
  lemma StepFlagsAt(items: seq<Item>, i: nat, g: seq<Flags>, opens: bool, k: nat)
    requires i < |items| && |g| == |items| && k < |items|
    ensures StepFlags(items, i, g, opens)[k] ==
      Flags(g[k].isCurrent, g[k].isInPath || k == i,
            g[k].isVisible || k == i || (opens && k in items[i].children))
  {
  }

  /** A walk of `n + 1` steps reveals what the first `n` reveal, plus the
      children of the `n`-th node if the cap check passes there. */
  lemma RevealedWithinStep(items: seq<Item>, m: nat, n: nat, k: nat)
    requires ParentsBefore(items) && m < |items| && n < |Path(items, m)| && k < |items|
    ensures RevealedWithin(items, m, n + 1, k) <==>
      RevealedWithin(items, m, n, k) ||
      (k in items[Path(items, m)[n]].children && RevealsAt(items, m, n))
  {
    var path := Path(items, m);
    if RevealedWithin(items, m, n + 1, k) && !RevealedWithin(items, m, n, k) {
      var s :| 0 <= s < n + 1 && k in items[path[s]].children && RevealsAt(items, m, s);
      assert s == n;
    }
  }

  /** The walks from `ms`, one after the other, starting from `f`. */
  ghost function Walks(items: seq<Item>, ms: seq<nat>, f: seq<Flags>): (g: seq<Flags>)
    requires ParentsBefore(items) && |f| == |items|
    requires forall t :: 0 <= t < |ms| ==> ms[t] < |items|
    ensures |g| == |f|
  {
    if ms == [] then f
    else Walk(items, ms[|ms| - 1], Walks(items, ms[..|ms| - 1], f))
  }

  /** The walks from the first `j + 1` of `ms` are those from the first `j`
      followed by the walk from `ms[j]`. */
  lemma WalksNext(items: seq<Item>, ms: seq<nat>, j: nat, f: seq<Flags>)
    requires ParentsBefore(items) && |f| == |items| && j < |ms|
    requires forall t :: 0 <= t < |ms| ==> ms[t] < |items|
    ensures Walks(items, ms[..j + 1], f) == Walk(items, ms[j], Walks(items, ms[..j], f))
  {
    assert ms[..j + 1][..j] == ms[..j];
  }

  /** The flags of node `k` after the whole walk from `m`. */
  lemma WalkAt(items: seq<Item>, m: nat, g: seq<Flags>, k: nat)
    requires ParentsBefore(items) && m < |items| && |g| == |items| && k < |items|
    ensures Walk(items, m, g)[k] ==
      Flags(g[k].isCurrent || k == m, g[k].isInPath || k in Path(items, m),
            g[k].isVisible || k in Path(items, m) || ChildRevealed(items, m, k))
  {
    var path := Path(items, m);
    WalkPrefixAt(items, m, |path|, g, k);
    assert path[..|path|] == path;
  }

  /** Is `k` on the walk from one of `ms`? */
  ghost predicate OnSomeWalk(items: seq<Item>, ms: seq<nat>, k: nat)
    requires ParentsBefore(items)
    requires forall t :: 0 <= t < |ms| ==> ms[t] < |items|
  {
    ms != [] &&
    (OnSomeWalk(items, ms[..|ms| - 1], k) || k in Path(items, ms[|ms| - 1]))
  }

  /** Is `k` on the walk from one of `ms`, or revealed by it? */
  ghost predicate ShownBySomeWalk(items: seq<Item>, ms: seq<nat>, k: nat)
    requires ParentsBefore(items) && k < |items|
    requires forall t :: 0 <= t < |ms| ==> ms[t] < |items|
  {
    ms != [] &&
    (ShownBySomeWalk(items, ms[..|ms| - 1], k) ||
     k in Path(items, ms[|ms| - 1]) || ChildRevealed(items, ms[|ms| - 1], k))
  }

  /** The flags a node has after the walks from `ms`: walks only ever set
      flags, so a node is current, in the path or visible afterwards when it
      was before or when one of the walks made it so. */
  lemma {:induction false} WalksAt(items: seq<Item>, ms: seq<nat>, f: seq<Flags>, k: nat)
    requires ParentsBefore(items) && |f| == |items| && k < |items|
    requires forall t :: 0 <= t < |ms| ==> ms[t] < |items|
    ensures Walks(items, ms, f)[k] ==
      Flags(f[k].isCurrent || k in ms,
            f[k].isInPath || OnSomeWalk(items, ms, k),
            f[k].isVisible || ShownBySomeWalk(items, ms, k))
  {
    if ms != [] {
      var last := |ms| - 1;
      var init, x := ms[..last], ms[last];
      WalksAt(items, init, f, k);
      WalkAt(items, x, Walks(items, init, f), k);
      assert ms == init + [x];
    }
  }

  /** `OnSomeWalk` in terms of the members of `ms`. */
  lemma {:induction false} OnSomeWalkMembers(items: seq<Item>, ms: seq<nat>, k: nat)
    requires ParentsBefore(items) && k < |items|
    requires forall t :: 0 <= t < |ms| ==> ms[t] < |items|
    ensures OnSomeWalk(items, ms, k) <==>
      exists m :: 0 <= m < |items| && m in ms && k in Path(items, m)
  {
    if ms != [] {
      var init, x := ms[..|ms| - 1], ms[|ms| - 1];
      OnSomeWalkMembers(items, init, k);
      LastSplit(ms);
      if OnSomeWalk(items, init, k) {
        var w :| 0 <= w < |items| && w in init && k in Path(items, w);
        assert w in ms;
      }
      if exists w :: 0 <= w < |items| && w in ms && k in Path(items, w) {
        var w :| 0 <= w < |items| && w in ms && k in Path(items, w);
        assert w in init || w == x;
      }
    }
  }

  /** `ShownBySomeWalk` in terms of the members of `ms`. */
  lemma {:induction false} ShownBySomeWalkMembers(items: seq<Item>, ms: seq<nat>, k: nat)
    requires ParentsBefore(items) && k < |items|
    requires forall t :: 0 <= t < |ms| ==> ms[t] < |items|
    ensures ShownBySomeWalk(items, ms, k) <==>
      exists m :: 0 <= m < |items| && m in ms && (k in Path(items, m) || ChildRevealed(items, m, k))
  {
    if ms != [] {
      var init, x := ms[..|ms| - 1], ms[|ms| - 1];
      ShownBySomeWalkMembers(items, init, k);
      LastSplit(ms);
      if ShownBySomeWalk(items, init, k) {
        var w :| 0 <= w < |items| && w in init && (k in Path(items, w) || ChildRevealed(items, w, k));
        assert w in ms;
      }
      if exists w :: 0 <= w < |items| && w in ms && (k in Path(items, w) || ChildRevealed(items, w, k)) {
        var w :| 0 <= w < |items| && w in ms && (k in Path(items, w) || ChildRevealed(items, w, k));
        assert w in init || w == x;
      }
    }
  }

  /** The members of a non-empty sequence are those of its front and its last. */
  lemma LastSplit(ms: seq<nat>)
    requires ms != []
    ensures forall m :: m in ms <==> m in ms[..|ms| - 1] || m == ms[|ms| - 1]
  {
    assert ms == ms[..|ms| - 1] + [ms[|ms| - 1]];
  }

  /** The whole pass for page `pageUrl` over flags `f`: reset every node,
      collect the nodes that stand for the page in pre-order, then walk up
      from each of them. */
  ghost function Annotate(items: seq<Item>, pageUrl: Option<string>, f: seq<Flags>): (g: seq<Flags>)
    requires WellFormed(items) && |f| == |items|
    ensures |g| == |items|
  {
    Walks(items, Matched(items, pageUrl, PreOrder(items, Root)), ResetNodes(items, f, PreOrder(items, Root)))
  }

  // ---------------------------------------------------------------------------
  // The flags after the pass

  /** Is `k` a current node or an ancestor of one? */
  ghost predicate ExpectInPath(items: seq<Item>, pageUrl: Option<string>, k: nat)
    requires WellFormed(items)
  {
    exists m :: 0 <= m < |items| && IsMatch(items[m], pageUrl) && k in Path(items, m)
  }

  /** Is `k` shown: a globals item, on the path of a current node, or a child
      that the walk from a current node reveals? */
  ghost predicate ExpectVisible(items: seq<Item>, pageUrl: Option<string>, k: nat)
    requires WellFormed(items) && k < |items|
  {
    items[k].isGlobals ||
    exists m :: 0 <= m < |items| && IsMatch(items[m], pageUrl) &&
      (k in Path(items, m) || ChildRevealed(items, m, k))
  }

  /** The flags of every node are what the pass must leave for page `pageUrl`. */
  ghost predicate Annotated(items: seq<Item>, pageUrl: Option<string>, f: seq<Flags>)
    requires WellFormed(items)
  {
    |f| == |items| &&
    forall k :: 0 <= k < |items| ==> AnnotatedAt(items, pageUrl, f, k)
  }

  /** The flags of node `k` are what the pass must leave for page `pageUrl`. */
  ghost predicate AnnotatedAt(items: seq<Item>, pageUrl: Option<string>, f: seq<Flags>, k: nat)
    requires WellFormed(items) && k < |items| && |f| == |items|
  {
    f[k] == Flags(IsMatch(items[k], pageUrl), ExpectInPath(items, pageUrl, k), ExpectVisible(items, pageUrl, k))
  }

  /** The pass leaves exactly the flags `Annotated` describes, whatever the
      flags were before it. */
  lemma AnnotateCorrect(items: seq<Item>, pageUrl: Option<string>, f: seq<Flags>)
    requires WellFormed(items) && |f| == |items|
    ensures Annotated(items, pageUrl, Annotate(items, pageUrl, f))
  {
    var g := Annotate(items, pageUrl, f);
    forall k | 0 <= k < |items|
      ensures AnnotatedAt(items, pageUrl, g, k)
    {
      AnnotateAt(items, pageUrl, f, k);
    }
  }

  lemma AnnotateAt(items: seq<Item>, pageUrl: Option<string>, f: seq<Flags>, k: nat)
    requires WellFormed(items) && |f| == |items| && k < |items|
    ensures AnnotatedAt(items, pageUrl, Annotate(items, pageUrl, f), k)
  {
    var order := PreOrder(items, Root);
    var ms := Matched(items, pageUrl, order);
    var r := ResetNodes(items, f, order);
    RootSubtreeIsAll(items);
    CurrentNodes(items, pageUrl);
    WalksAt(items, ms, r, k);
    OnSomeWalkMembers(items, ms, k);
    ShownBySomeWalkMembers(items, ms, k);
    assert r[k] == ResetFlags(items[k]);
  }

  /** Only one flag assignment is `Annotated` for a page. */
  lemma AnnotatedUnique(items: seq<Item>, pageUrl: Option<string>, f: seq<Flags>, g: seq<Flags>)
    requires WellFormed(items) && Annotated(items, pageUrl, f) && Annotated(items, pageUrl, g)
    ensures f == g
  {
    forall k | 0 <= k < |items|
      ensures f[k] == g[k]
    {
      assert AnnotatedAt(items, pageUrl, f, k) && AnnotatedAt(items, pageUrl, g, k);
    }
  }

  /** The pass forgets the flags it starts from, so running it a second time
      for the same page changes nothing. */
  lemma AnnotateIdempotent(items: seq<Item>, pageUrl: Option<string>, f: seq<Flags>, g: seq<Flags>)
    requires WellFormed(items) && |f| == |items| && |g| == |items|
    ensures Annotate(items, pageUrl, f) == Annotate(items, pageUrl, g)
    ensures Annotate(items, pageUrl, Annotate(items, pageUrl, f)) == Annotate(items, pageUrl, f)
  {
    AnnotateCorrect(items, pageUrl, f);
    AnnotateCorrect(items, pageUrl, g);
    AnnotatedUnique(items, pageUrl, Annotate(items, pageUrl, f), Annotate(items, pageUrl, g));
    AnnotateCorrect(items, pageUrl, Annotate(items, pageUrl, f));
    AnnotatedUnique(items, pageUrl, Annotate(items, pageUrl, f),
                    Annotate(items, pageUrl, Annotate(items, pageUrl, f)));
  }

  // ---------------------------------------------------------------------------
  // What the annotated flags promise

  /** The path is closed upwards: the parent of a path node is a path node. */
  lemma InPathUpward(items: seq<Item>, pageUrl: Option<string>, f: seq<Flags>, k: nat)
    requires WellFormed(items) && Annotated(items, pageUrl, f)
    requires k < |items| && f[k].isInPath && items[k].parent.Some?
    ensures f[items[k].parent.value].isInPath
  {
    var p := items[k].parent.value;
    assert AnnotatedAt(items, pageUrl, f, k);
    assert AnnotatedAt(items, pageUrl, f, p);
    var m :| 0 <= m < |items| && IsMatch(items[m], pageUrl) && k in Path(items, m);
    ParentOnPath(items, m, k);
  }

  /** A current node is on the path, a path node and a globals item are
      visible, and any other visible node is a child of a path node. */
  lemma VisibleNodes(items: seq<Item>, pageUrl: Option<string>, f: seq<Flags>, k: nat)
    requires WellFormed(items) && Annotated(items, pageUrl, f) && k < |items|
    ensures f[k].isCurrent ==> f[k].isInPath
    ensures f[k].isInPath || items[k].isGlobals ==> f[k].isVisible
    ensures f[k].isVisible ==>
      items[k].isGlobals || f[k].isInPath ||
      (items[k].parent.Some? && f[items[k].parent.value].isInPath)
  {
    assert AnnotatedAt(items, pageUrl, f, k);
    if f[k].isCurrent {
      assert k in Path(items, k);
    }
    if f[k].isVisible && !items[k].isGlobals && !f[k].isInPath {
      var m :| 0 <= m < |items| && IsMatch(items[m], pageUrl) &&
        (k in Path(items, m) || ChildRevealed(items, m, k));
      assert !(k in Path(items, m));
      RevealedChildParent(items, m, k);
      assert AnnotatedAt(items, pageUrl, f, items[k].parent.value);
    }
  }

  /** A child the walk from `m` reveals hangs below a node of that walk. */
  lemma RevealedChildParent(items: seq<Item>, m: nat, k: nat)
    requires WellFormed(items) && m < |items| && k < |items| && ChildRevealed(items, m, k)
    ensures items[k].parent.Some? && items[k].parent.value in Path(items, m)
  {
    var path := Path(items, m);
    var s :| 0 <= s < |path| && k in items[path[s]].children && RevealsAt(items, m, s);
    assert items[k].parent == Some(path[s]);
  }

  /** Every child of a current node is visible. */
  lemma MatchedChildrenVisible(items: seq<Item>, pageUrl: Option<string>, f: seq<Flags>, m: nat, c: nat)
    requires WellFormed(items) && Annotated(items, pageUrl, f)
    requires m < |items| && f[m].isCurrent && c in items[m].children
    ensures c < |items| && f[c].isVisible
  {
    ChildAfterParent(items, m, c);
    assert AnnotatedAt(items, pageUrl, f, m);
    assert IsMatch(items[m], pageUrl);
    assert RevealsAt(items, m, 0);
    assert ChildRevealed(items, m, c);
    assert ExpectVisible(items, pageUrl, c);
    assert AnnotatedAt(items, pageUrl, f, c);
  }

  /** For a current globals item, the children of its parent are visible too:
      `depth` starts one lower for it, so the second step is still below the
      depth cap. */
  lemma GlobalsMatchRevealsSiblings(items: seq<Item>, pageUrl: Option<string>, f: seq<Flags>, m: nat, c: nat)
    requires WellFormed(items) && Annotated(items, pageUrl, f)
    requires m < |items| && f[m].isCurrent && items[m].isGlobals && items[m].parent.Some?
    requires c in items[items[m].parent.value].children
    ensures c < |items| && f[c].isVisible
  {
    var p := items[m].parent.value;
    PathStep(items, m, 0);
    ChildAfterParent(items, p, c);
    assert AnnotatedAt(items, pageUrl, f, m);
    assert AnnotatedAt(items, pageUrl, f, c);
    assert RevealsAt(items, m, 1);
    assert ChildRevealed(items, m, c);
  }
}
