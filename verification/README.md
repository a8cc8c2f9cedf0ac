# Navigation plugin of the TypeDoc renderer

The renderer's navigation plugin keeps the navigation tree that the theme
builds for a project. Before each page is rendered, it annotates every node of
that tree for the page, in two phases:

1. A pre-order walk from the root resets every node. `isCurrent` and
   `isInPath` become false, and `isVisible` becomes the node's `isGlobals`
   mark. The walk also collects the nodes that stand for the page: their
   `url` equals the page URL, or the page URL is one of their
   `dedicatedUrls`.
2. For each collected node, in the order found, the node is marked current.
   An upward walk then runs to the root. It puts every node it passes into
   the path and makes it visible. It also reveals the node's children while
   the fan-out cap allows: `depth` is below 2, or `count` is below 30.
   `depth` goes up by one per step. `count` starts at 1 and goes up by one
   per step plus the number of children of each node passed. Every path
   node below the root is therefore counted twice: once as a step and once
   as a child of its parent.

The plugin then hands the same tree object to the page.

The project has two modules:

- `Navigation` (`navigation.dfy`) describes the tree as an arena of
  structural items. Node `i` is `items[i]` and the root is node 0. The
  module holds the pure specification of the pass:
  - the pre-order of the reset (`PreOrder`) and the nodes it finds
    (`Matched`);
  - the upward path (`Path`) and the two counters at each step
    (`DepthAt`, `CountAt`, `RevealsAt`);
  - the walk as a function of the flags (`WalkPrefix`, `Walk`, `Walks`);
  - the whole pass (`Annotate`);
  - a closed-form description of the flags it must leave (`Annotated`).
- `Output` (`output.dfy`) holds the imperative model:
  - the shared `NavigationTree`, whose display flags the pass rewrites;
  - the page event that receives the tree;
  - the plugin class with its two event handlers.

  Each method is proved against the specification functions. The lemmas in
  `Navigation` prove what the annotated flags mean.

## Model

| member | source | states |
|---|---|---|
| Output.NavigationPlugin.constructor | src/td/output/plugins/NavigationPlugin.ts:24-28 | a new plugin has no navigation tree yet |
| Output.NavigationPlugin.OnRendererBegin | src/td/output/plugins/NavigationPlugin.ts:36-38 | the tree the theme built becomes the plugin's cached navigation |
| Output.NavigationPlugin.OnRendererBeginPage | src/td/output/plugins/NavigationPlugin.ts:46-87 | the page receives the plugin's own tree object, which stays valid for the next page; the flags afterwards are `Annotate` of the flags before, and they satisfy `Annotated`: each node is current iff it stands for the page, in the path iff it is on the upward path of such a node, and visible iff it is a globals item, on such a path, or a child that such a walk reveals |
| Output.NavigationTree.UpdateItem | src/td/output/plugins/NavigationPlugin.ts:48-60 | resets exactly the nodes of the subtree, in pre-order; appends to the found list exactly the subtree's nodes that stand for the page, in pre-order; from the root, the found list has no duplicates (`CurrentNodesDistinct`) |
| Output.NavigationTree.UpdateChildren | src/td/output/plugins/NavigationPlugin.ts:57-59 | the recursion into the children, in child order, resets and collects the pre-order of every child subtree, one after the other |
| Output.NavigationTree.MarkCurrentItems | src/td/output/plugins/NavigationPlugin.ts:62-84 | the flags afterwards are those of the walks from every found node, in the order found; the tree stays valid |
| Output.NavigationTree.MarkPath | src/td/output/plugins/NavigationPlugin.ts:62-84 | one found node is marked current and then walked up from; the new flags are `Walk` of the old ones |
| Output.NavigationTree.WalkUp | src/td/output/plugins/NavigationPlugin.ts:65-83 | the `while (item)` loop stops at the root; the loop invariant ties `depth`, `count` and the flags after each step to the step-wise walk specification |
| Output.NavigationTree.VisitPathNode | src/td/output/plugins/NavigationPlugin.ts:68-80 | one loop step: `depth` goes up by one and `count` by one plus the number of children; the node goes into the path and becomes visible; its children become visible exactly when it has children and `depth < 2` or `count < 30` |
| Output.NavigationTree.RevealChildren | src/td/output/plugins/NavigationPlugin.ts:76-78 | every child of the node becomes visible; no other flag changes |
| Navigation.IsMatch | src/td/output/plugins/NavigationPlugin.ts:53 | an item stands for the page when its `url` equals the page URL under loose equality, or the page URL is one of its `dedicatedUrls`; for an absent page URL, exactly the items without a URL match |
| Navigation.DepthAt | src/td/output/plugins/NavigationPlugin.ts:65-72 | `depth` after the increment of step `s`: it starts at -1 for a globals item and at 0 otherwise; it is below the cap of 2 exactly at the first step, and also at the second step for a globals item |
| Navigation.CountAt | src/td/output/plugins/NavigationPlugin.ts:66-74 | `count` after the increments of step `s`: 1, plus one per step taken, plus the children of every node passed; so it is at least `s` + 2 plus the children of the current node |
| Navigation.RevealsAt | src/td/output/plugins/NavigationPlugin.ts:73-75 | step `s` reveals children iff the node has children and `depth < 2` or `count < 30` there; a node with no children never reveals, and the first step, or the second for a globals item, always reveals when there are children |
| Navigation.Path | src/td/output/plugins/NavigationPlugin.ts:67-83 | the upward walk starts at the current node and ends at the root; every node on it has an index no larger than the start |
| Navigation.PathStep | src/td/output/plugins/NavigationPlugin.ts:82 | each step of the walk follows the parent link, and only the last node has no parent |
| Navigation.ParentOnPath | src/td/output/plugins/NavigationPlugin.ts:82 | the parent of a node on a walk is on the same walk |
| Navigation.CapIsFinal | src/td/output/plugins/NavigationPlugin.ts:71-75 | once a step has depth at least 2 and count at least 30, no later step of the same walk reveals children |
| Navigation.MatchedMembers | src/td/output/plugins/NavigationPlugin.ts:53-55 | a node is collected iff it is visited and stands for the page |
| Navigation.RootSubtreeIsAll | src/td/output/plugins/NavigationPlugin.ts:48-60 | the reset walk from the root visits every node of the tree and no other index |
| Navigation.PreOrderDistinct | src/td/output/plugins/NavigationPlugin.ts:48-60 | the reset of a subtree visits no node twice |
| Navigation.SiblingSubtreesDisjoint | src/td/output/plugins/NavigationPlugin.ts:57-58 | the subtrees of two different children of one node share no node |
| Navigation.RootPreOrderExact | src/td/output/plugins/NavigationPlugin.ts:48-60 | the reset from the root visits every node of the tree exactly once: its visits have no repeats and number as many as the nodes |
| Navigation.MatchedDistinct | src/td/output/plugins/NavigationPlugin.ts:53-55 | collecting from a visit order without repeats collects no node twice |
| Navigation.CurrentNodesDistinct | src/td/output/plugins/NavigationPlugin.ts:47-60 | the first phase collects no node twice |
| Navigation.CurrentNodes | src/td/output/plugins/NavigationPlugin.ts:47-60 | the first phase finds exactly the nodes that stand for the page |
| Navigation.WalkPrefixAt | src/td/output/plugins/NavigationPlugin.ts:63-83 | after `n` steps of a walk, a node is current iff it was or is the start; in the path iff it was or the walk has passed it; visible iff it was, or the walk has passed it, or a step so far revealed it; the walk only sets flags |
| Navigation.WalkAt | src/td/output/plugins/NavigationPlugin.ts:62-84 | the same closed form for the whole walk from one current node |
| Navigation.WalksAt | src/td/output/plugins/NavigationPlugin.ts:62-84 | the same closed form for the walks from all found nodes, one after the other |
| Navigation.OnSomeWalkMembers | src/td/output/plugins/NavigationPlugin.ts:62 | a node is on one of the walks iff it is on the path of some found node |
| Navigation.ShownBySomeWalkMembers | src/td/output/plugins/NavigationPlugin.ts:62 | a node is shown by one of the walks iff some found node has it on its path or reveals it |
| Navigation.AnnotateCorrect | src/td/output/plugins/NavigationPlugin.ts:46-84 | whatever the flags were before, the pass leaves every node with the flags `Annotated` describes |
| Navigation.AnnotatedUnique | src/td/output/plugins/NavigationPlugin.ts:46-84 | for a given tree and page URL only one flag assignment is `Annotated` |
| Navigation.AnnotateIdempotent | src/td/output/plugins/NavigationPlugin.ts:49-51 | because the reset forgets the previous flags, the pass gives the same result from any starting flags, and a second pass for the same page changes nothing |
| Navigation.InPathUpward | src/td/output/plugins/NavigationPlugin.ts:67-82 | after the pass, the parent of a node in the path is in the path |
| Navigation.VisibleNodes | src/td/output/plugins/NavigationPlugin.ts:46-84 | after the pass, a current node is in the path; a path node or globals item is visible; any other visible node is a child of a path node |
| Navigation.RevealedChildParent | src/td/output/plugins/NavigationPlugin.ts:73-78 | a node that a walk reveals has a parent, and that parent is on the same walk |
| Navigation.MatchedChildrenVisible | src/td/output/plugins/NavigationPlugin.ts:63-78 | after the pass, every child of a current node is visible, because the first step has depth 0 or 1 |
| Navigation.GlobalsMatchRevealsSiblings | src/td/output/plugins/NavigationPlugin.ts:65-78 | for a current globals item with a parent, every child of that parent is visible, because `depth` starts at -1 so the second step is still below the depth cap |

## Left out

- The theme's `getNavigation` (line 37) is not part of this model. Its result is the parameter of `OnRendererBegin`.
- The tree is assumed well formed: it is rooted at node 0, every parent index is smaller than its child's index, no node lists a child twice, and parent and child links agree. The theme builds the links; that code is not part of this model.
- Subscribing to the renderer's events (lines 26-27) and registering the plugin (line 94) are left out. They only route calls to the two handlers.
- An `OutputPageEvent` has only the page URL and the `navigation` slot here. The pass reads and writes no other field.
- In the source, a page rendered before `onRendererBegin` would dereference an undefined tree and fail. `OnRendererBeginPage` requires a cached, well-formed tree instead.
- An undefined `children` or `dedicatedUrls` list is the empty sequence here. An empty children array behaves the same in the source: `count` grows by 0 and nothing is revealed.
- URLs are `Option<string>`, and `None` stands for undefined or null. Loose `==` between two absent URLs is true, so an item without a URL matches a page without a URL. The `dedicatedUrls` list holds strings only, so an absent page URL is never in it.
- Nodes are arena indices, not objects. The flags of all nodes are one sequence field of the shared `NavigationTree`, not fields of separate node objects. A node object reachable from two places in the tree is not modelled.
