/** The navigation plugin of the renderer: it caches the theme's navigation
    tree and, before each page is rendered, rewrites the display flags of
    every node in place and hands the tree to the page. */
module Output {
  import opened Navigation

  /** A navigation tree shared by every page of one render session. The
      structure (`items`) never changes; `flags[i]` holds the display flags
      of node `i`. The source keeps the flags on the node objects themselves;
      here they are one field of the shared tree, which every step of the
      pass updates at one or more nodes. */
  class NavigationTree {
    const items: seq<Item>
    var flags: seq<Flags>

    ghost predicate Valid()
      reads this
    {
      WellFormed(items) && |flags| == |items|
    }

    constructor (items: seq<Item>)
      requires WellFormed(items)
      ensures Valid() && this.items == items
      ensures forall k :: 0 <= k < |items| ==> flags[k] == ResetFlags(items[k])
    {
      this.items := items;
      flags := seq(|items|, k requires 0 <= k < |items| => ResetFlags(items[k]));
    }

    /** The first phase of the pass on the subtree at `i`: resets the flags
        of every node of the subtree, in pre-order, and appends the nodes that
        stand for the page to `currentItems`. */
    method UpdateItem(i: nat, pageUrl: Option<string>, currentItems: seq<nat>) returns (found: seq<nat>)
      requires ChildrenAfter(items) && |flags| == |items| && i < |items|
      modifies this
      ensures found == currentItems + Matched(items, pageUrl, PreOrder(items, i))
      ensures flags == ResetNodes(items, old(flags), PreOrder(items, i))
      decreases |items| - i, 1
    {
      SubtreeSplit(items, pageUrl, flags, currentItems, i);
      flags := flags[i := ResetFlags(items[i])];
      found := currentItems;
      if IsMatch(items[i], pageUrl) {
        found := found + [i];
      }
      found := UpdateChildren(i, pageUrl, found);
    }

    /** The recursion of the first phase into each child of `i`, in order. */
    method UpdateChildren(i: nat, pageUrl: Option<string>, currentItems: seq<nat>) returns (found: seq<nat>)
      requires ChildrenAfter(items) && |flags| == |items| && i < |items|
      modifies this
      ensures found == currentItems + Matched(items, pageUrl, Forest(items, i, |items[i].children|))
      ensures flags == ResetNodes(items, old(flags), Forest(items, i, |items[i].children|))
      decreases |items| - i, 0
    {
      ForestStart(items, pageUrl, flags, currentItems, i);
      found := currentItems;
      var j := 0;
      while j < |items[i].children|
        invariant 0 <= j <= |items[i].children|
        invariant |flags| == |items|
        invariant found == currentItems + Matched(items, pageUrl, Forest(items, i, j))
        invariant flags == ResetNodes(items, old(flags), Forest(items, i, j))
      {
        ForestStep(items, pageUrl, old(flags), currentItems, i, j);
        found := UpdateItem(items[i].children[j], pageUrl, found);
        j := j + 1;
      }
    }

    /** The second phase of the pass for one current node `m`: marks it
        current, then walks up to the root marking each node on the way as in
        the path and visible, and reveals that node's children while the
        fan-out cap allows. */
    method MarkPath(m: nat)
      requires ParentsBefore(items) && ChildrenAfter(items) && |flags| == |items| && m < |items|
      modifies this
      ensures flags == Walk(items, m, old(flags))
    {
      flags := flags[m := flags[m].(isCurrent := true)];
      WalkUp(m, old(flags));
    }

    /** The upward walk from current node `m`, on flags `f` with `m` already
        marked current. */
    method WalkUp(m: nat, ghost f: seq<Flags>)
      requires ParentsBefore(items) && ChildrenAfter(items) && |f| == |items| && m < |items|
      requires flags == WalkPrefix(items, m, 0, f)
      modifies this
      ensures flags == Walk(items, m, f)
    {
      ghost var path := Path(items, m);
      ghost var steps := 0;
      var item: Option<nat> := Some(m);
      var depth := if items[m].isGlobals then -1 else 0;
      var count := 1;
      while item.Some?
        invariant 0 <= steps <= |path|
        invariant item == if steps < |path| then Some(path[steps]) else None
        invariant depth == (if items[m].isGlobals then -1 else 0) + steps
        invariant count == 1 + steps + ChildrenSeen(items, m, steps)
        invariant flags == WalkPrefix(items, m, steps, f)
        decreases if item.Some? then item.value + 1 else 0
      {
        var i := item.value;
        PathStep(items, m, steps);
        ghost var d, c := depth, count;
        depth, count := VisitPathNode(i, depth, count);
        WalkStep(items, m, steps, f, d, c, flags);
        item := items[i].parent;
        steps := steps + 1;
      }
    }

    /** One step of the upward walk, at node `i`: puts `i` into the path and
        makes it visible, advances the two counters, and reveals the children
        of `i` while the fan-out cap allows. */
    method VisitPathNode(i: nat, depth: int, count: int) returns (newDepth: int, newCount: int)
      requires ChildrenAfter(items) && |flags| == |items| && i < |items|
      modifies this
      ensures newDepth == depth + 1 && newCount == count + 1 + |items[i].children|
      ensures flags == StepFlags(items, i, old(flags),
        |items[i].children| > 0 && (newDepth < DepthCap || newCount < CountCap))
    {
      flags := flags[i := flags[i].(isInPath := true, isVisible := true)];
      newCount := count + 1;
      newDepth := depth + 1;
      var children := items[i].children;
      if |children| > 0 {
        newCount := newCount + |children|;
        if newDepth < DepthCap || newCount < CountCap {
          RevealChildren(i);
        }
      }
    }

    /** The second phase of the pass: the walk from each current node, in
        the order the first phase found them. */
    method MarkCurrentItems(currentItems: seq<nat>)
      requires Valid() && forall t :: 0 <= t < |currentItems| ==> currentItems[t] < |items|
      modifies this
      ensures Valid()
      ensures flags == Walks(items, currentItems, old(flags))
    {
      var j := 0;
      assert currentItems[..0] == [];
      while j < |currentItems|
        invariant 0 <= j <= |currentItems|
        invariant flags == Walks(items, currentItems[..j], old(flags))
      {
        WalksNext(items, currentItems, j, old(flags));
        MarkPath(currentItems[j]);
        j := j + 1;
      }
      assert currentItems[..j] == currentItems;
    }

    /** Makes every child of node `i` visible. */
    method RevealChildren(i: nat)
      requires ChildrenAfter(items) && |flags| == |items| && i < |items|
      modifies this
      ensures flags == RevealChildrenOf(items, i, old(flags))
    {
      var children := items[i].children;
      var c := 0;
      while c < |children|
        invariant 0 <= c <= |children|
        invariant |flags| == |items|
        invariant forall k :: 0 <= k < |items| ==>
          flags[k] == if k in children[..c] then old(flags[k]).(isVisible := true) else old(flags[k])
      {
        assert children[c] in children;
        flags := flags[children[c] := flags[children[c]].(isVisible := true)];
        assert children[..c + 1] == children[..c] + [children[c]];
        c := c + 1;
      }
      assert children[..c] == children;
    }
  }

  /** The part of a page-render event the plugin uses: the page's URL and the
      slot that receives the navigation tree. */
  class OutputPageEvent {
    const url: Option<string>
    var navigation: NavigationTree?

    constructor (url: Option<string>)
      ensures this.url == url && navigation == null
    {
      this.url := url;
      navigation := null;
    }
  }

  class NavigationPlugin {
    /** The navigation tree of the current render session. */
    var navigation: NavigationTree?

    constructor ()
      ensures navigation == null
    {
      navigation := null;
    }

    /** Caches the tree the theme built for the project being rendered. */
    method OnRendererBegin(themeNavigation: NavigationTree)
      modifies this
      ensures navigation == themeNavigation
    {
      navigation := themeNavigation;
    }

    /** Annotates the cached tree for `page` and hands the tree to the page.
        The flags afterwards depend only on the tree and the page URL, never on
        the flags before, so a second pass for the same page changes nothing. */
    method OnRendererBeginPage(page: OutputPageEvent)
      requires navigation != null && navigation.Valid()
      modifies navigation, page`navigation
      ensures page.navigation == navigation && navigation.Valid()
      ensures navigation.flags == Annotate(navigation.items, page.url, old(navigation.flags))
      ensures Annotated(navigation.items, page.url, navigation.flags)
    {
      var tree := navigation;
      var currentItems := tree.UpdateItem(Root, page.url, []);
      assert currentItems == Matched(tree.items, page.url, PreOrder(tree.items, Root));
      tree.MarkCurrentItems(currentItems);
      AnnotateCorrect(tree.items, page.url, old(tree.flags));
      page.navigation := tree;
    }
  }
}
