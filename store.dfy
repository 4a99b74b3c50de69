/** The node store: BXML_NODE records kept in an arena and linked by index
    (bxml.c:43-110).  A `Ref` stands for a node pointer, `Null` for NULL.

    The document object `Doc` owns the arena and the `node_root`/`node_cur`
    pointers.  Every splice the C performs in place is also given as a pure
    function on `Heap` values (the arena together with two ghost rank
    sequences); the class methods are proved to compute exactly those
    functions, and the properties of the splices are lemmas about them. */
module Store {
  import opened Base

  datatype Ref = Null | At(i: nat)

  /** One BXML_NODE: name and value buffers (NULL when never set) and the five links. */
  datatype Node = Node(name: Option<Bytes>, value: Option<Bytes>,
                       parent: Ref, child: Ref, attr: Ref, next: Ref, pre: Ref)

  /** The zeroed record create_node starts from. */
  const Blank: Node := Node(None, None, Null, Null, Null, Null, Null)

  /** `value_len`: the stored value's length, 0 when there is no value. */
  function ValueLen(n: Node): nat {
    if n.value.Some? then |n.value.value| else 0
  }

  /** The abstract document a node stands for: its name, value, attribute
      chain and child chain, each chain read from its head along `node_next`. */
  datatype Tree = Tree(name: Option<Bytes>, value: Option<Bytes>, attrs: seq<Tree>, kids: seq<Tree>)

  /** The arena with two ghost ranks used only to prove that traversals end:
      `depth` grows by one along child and attribute links and is kept along
      `node_next`; `pos` grows by one along `node_next`. */
  datatype Heap = Heap(nodes: seq<Node>, depth: seq<int>, pos: seq<int>)

  predicate InRange(r: Ref, n: int) {
    r.At? ==> r.i < n
  }

  ghost predicate NodeOk(h: Heap, i: nat)
    requires i < |h.nodes| && |h.depth| == |h.nodes| && |h.pos| == |h.nodes|
  {
    var N := |h.nodes|;
    var n := h.nodes[i];
    && 0 <= h.depth[i] < N
    && -N < h.pos[i] < N
    && InRange(n.parent, N)
    && InRange(n.pre, N)
    && (n.next.At? ==> n.next.i < N && h.depth[n.next.i] == h.depth[i] && h.pos[n.next.i] == h.pos[i] + 1)
    && (n.child.At? ==> n.child.i < N && h.depth[n.child.i] == h.depth[i] + 1)
    && (n.attr.At? ==> n.attr.i < N && h.depth[n.attr.i] == h.depth[i] + 1)
  }

  /** Every link stays inside the arena and the ranks are consistent, so no
      chain and no subtree is cyclic. */
  ghost predicate Ranked(h: Heap) {
    && |h.depth| == |h.nodes|
    && |h.pos| == |h.nodes|
    && forall i :: 0 <= i < |h.nodes| ==> NodeOk(h, i)
  }

  ghost function DM(h: Heap, r: Ref): nat
    requires Ranked(h) && InRange(r, |h.nodes|)
  {
    if r.Null? then 0 else assert NodeOk(h, r.i); |h.nodes| - h.depth[r.i]
  }

  ghost function PM(h: Heap, r: Ref): nat
    requires Ranked(h) && InRange(r, |h.nodes|)
  {
    if r.Null? then 0 else assert NodeOk(h, r.i); |h.nodes| - h.pos[r.i]
  }

  /** The indices met when following `node_next` from `r`. */
  ghost function Chain(h: Heap, r: Ref): (c: seq<nat>)
    requires Ranked(h) && InRange(r, |h.nodes|)
    ensures forall k :: 0 <= k < |c| ==> c[k] < |h.nodes|
    ensures r.Null? <==> c == []
    ensures r.At? ==> c[0] == r.i
    decreases PM(h, r)
  {
    if r.Null? then []
    else
      assert NodeOk(h, r.i);
      [r.i] + Chain(h, h.nodes[r.i].next)
  }

  /** The abstract tree rooted at node i (its own `node_next` is not followed). */
  ghost function TreeAt(h: Heap, i: nat): Tree
    requires Ranked(h) && i < |h.nodes|
    decreases DM(h, At(i)), PM(h, At(i)), 0
  {
    var n := h.nodes[i];
    assert NodeOk(h, i);
    Tree(n.name, n.value, Forest(h, n.attr), Forest(h, n.child))
  }

  /** The trees of the chain starting at r. */
  ghost function Forest(h: Heap, r: Ref): seq<Tree>
    requires Ranked(h) && InRange(r, |h.nodes|)
    decreases DM(h, r), PM(h, r), 1
  {
    if r.Null? then []
    else
      assert NodeOk(h, r.i);
      [TreeAt(h, r.i)] + Forest(h, h.nodes[r.i].next)
  }

  /** The chain's trees are the trees of the chain's nodes, in order. */
  lemma {:induction false} ForestIsChain(h: Heap, r: Ref)
    requires Ranked(h) && InRange(r, |h.nodes|)
    ensures |Forest(h, r)| == |Chain(h, r)|
    ensures forall k :: 0 <= k < |Chain(h, r)| ==> Forest(h, r)[k] == TreeAt(h, Chain(h, r)[k])
    decreases PM(h, r)
  {
    if r.At? {
      assert NodeOk(h, r.i);
      ForestIsChain(h, h.nodes[r.i].next);
    }
  }

  /** All members of a chain sit at the depth of its head. */
  lemma {:induction false} ChainDepth(h: Heap, r: Ref)
    requires Ranked(h) && r.At? && r.i < |h.nodes|
    ensures forall k :: 0 <= k < |Chain(h, r)| ==> h.depth[Chain(h, r)[k]] == h.depth[r.i]
    decreases PM(h, r)
  {
    assert NodeOk(h, r.i);
    var nx := h.nodes[r.i].next;
    if nx.At? {
      ChainDepth(h, nx);
    }
  }

  // ---------------------------------------------------------------------
  // The splices of bxml.c:43-110 as functions on heaps.

  /** Node 0 is node_root as soon as the arena is not empty. */
  function RootOf(n: nat): Ref {
    if n == 0 then Null else At(0)
  }

  /** Everything a traversal reads of a node: all but the `node_pre` back link. */
  function Shape(n: Node): Node {
    n.(pre := Null)
  }

  /** create_node: a zeroed record appended to the arena. */
  ghost function NewNode(h: Heap): (h': Heap)
    requires Ranked(h)
    ensures Ranked(h')
    ensures h'.nodes == h.nodes + [Blank]
  {
    var h' := Heap(h.nodes + [Blank], h.depth + [0], h.pos + [0]);
    assert forall i :: 0 <= i < |h'.nodes| ==> NodeOk(h', i) by {
      forall i | 0 <= i < |h'.nodes| ensures NodeOk(h', i) {
        if i < |h.nodes| { assert NodeOk(h, i); }
      }
    }
    h'
  }

  /** The splices change links only: every existing node keeps its name and
      value, and the new node has neither. */
  ghost predicate KeepsData(h: Heap, h': Heap) {
    && |h'.nodes| == |h.nodes| + 1
    && h'.nodes[|h.nodes|].name == None
    && h'.nodes[|h.nodes|].value == None
    && forall i :: 0 <= i < |h.nodes| ==> h'.nodes[i].name == h.nodes[i].name && h'.nodes[i].value == h.nodes[i].value
  }

  /** The two chains a node heads: its children and its attributes. */
  datatype Link = ChildLink | AttrLink

  function Head(n: Node, k: Link): Ref {
    if k == ChildLink then n.child else n.attr
  }

  function WithHead(n: Node, k: Link, r: Ref): (m: Node)
    ensures Head(m, k) == r
    ensures k == ChildLink ==> m == n.(child := r)
    ensures k == AttrLink ==> m == n.(attr := r)
  {
    if k == ChildLink then n.(child := r) else n.(attr := r)
  }

  /** create_childnode (k = ChildLink) and create_attrnode (k = AttrLink):
      a new node inserted at the head of p's chain; without a parent the new
      node is left unlinked. */
  ghost function AddUnder(h: Heap, p: Ref, k: Link): (h': Heap)
    requires Ranked(h) && InRange(p, |h.nodes|)
    ensures Ranked(h') && |h'.nodes| == |h.nodes| + 1
    ensures KeepsData(h, h') && h'.nodes[|h.nodes|].parent == p
  {
    if p.Null? then NewNode(h)
    else
      SpliceRanked(h, p.i, k);
      Splice(h, p.i, k)
  }

  /** The splice itself: the new node n takes the old head as `node_next` and p
      as `node_parent`, the old head's `node_pre` becomes n, p's head becomes n. */
  ghost function Splice(h: Heap, p: nat, k: Link): (h': Heap)
    requires Ranked(h) && p < |h.nodes|
    ensures KeepsData(h, h') && h'.nodes[|h.nodes|].parent == At(p)
  {
    var n := |h.nodes|;
    assert NodeOk(h, p);
    var hd := Head(h.nodes[p], k);
    var nodes1 := h.nodes[p := WithHead(h.nodes[p], k, At(n))];
    var nodes2 := if hd.At? then nodes1[hd.i := nodes1[hd.i].(pre := At(n))] else nodes1;
    Heap(nodes2 + [Node(None, None, At(p), Null, Null, hd, Null)],
         h.depth + [h.depth[p] + 1],
         h.pos + [if hd.At? then h.pos[hd.i] - 1 else 0])
  }

  lemma SpliceRanked(h: Heap, p: nat, k: Link)
    requires Ranked(h) && p < |h.nodes|
    ensures Ranked(Splice(h, p, k))
  {
    var h' := Splice(h, p, k);
    forall i | 0 <= i < |h'.nodes| ensures NodeOk(h', i) {
      SpliceNodeOk(h, p, k, i);
    }
  }

  lemma SpliceNodeOk(h: Heap, p: nat, k: Link, i: nat)
    requires Ranked(h) && p < |h.nodes| && i <= |h.nodes|
    ensures var h' := Splice(h, p, k); |h'.depth| == |h'.pos| == |h'.nodes| && NodeOk(h', i)
  {
    var h' := Splice(h, p, k);
    var n := |h.nodes|;
    assert NodeOk(h, p);
    var hd := Head(h.nodes[p], k);
    assert Grown(h, h');
    if i == n {
      if hd.At? { assert NodeOk(h, hd.i); }
    } else if i == p {
      assert h'.nodes[p] == WithHead(h.nodes[p], k, At(n));
    } else {
      assert NodeOk(h, i);
      assert Shape(h'.nodes[i]) == Shape(h.nodes[i]);
      GrownNodeOk(h, h', i);
    }
  }

  /** The arena has grown and the ranks of the old nodes are unchanged. */
  ghost predicate Grown(h: Heap, h': Heap) {
    && |h.depth| == |h.pos| == |h.nodes| <= |h'.nodes| == |h'.depth| == |h'.pos|
    && (forall j :: 0 <= j < |h.nodes| ==> h'.depth[j] == h.depth[j])
    && (forall j :: 0 <= j < |h.nodes| ==> h'.pos[j] == h.pos[j])
  }

  /** An old node whose links other than `node_pre` are unchanged keeps its
      ranks when the arena grows. */
  lemma GrownNodeOk(h: Heap, h': Heap, i: nat)
    requires Ranked(h) && Grown(h, h') && i < |h.nodes|
    requires Shape(h'.nodes[i]) == Shape(h.nodes[i]) && InRange(h'.nodes[i].pre, |h'.nodes|)
    ensures NodeOk(h', i)
  {
    assert NodeOk(h, i);
  }

  /** create_nextnode as written: the new node follows c and takes c's parent;
      the old successor's `node_pre` is pointed at it, but the new node's own
      `node_next` is left NULL. */
  ghost function AddNext(h: Heap, c: Ref): (h': Heap)
    requires Ranked(h) && InRange(c, |h.nodes|)
    ensures Ranked(h') && |h'.nodes| == |h.nodes| + 1
    ensures KeepsData(h, h') && h'.nodes[|h.nodes|].parent == (if c.At? then h.nodes[c.i].parent else Null)
  {
    if c.Null? then NewNode(h)
    else
      AppendRanked(h, c.i);
      Append(h, c.i)
  }

  ghost function Append(h: Heap, c: nat): (h': Heap)
    requires Ranked(h) && c < |h.nodes|
    ensures KeepsData(h, h') && h'.nodes[|h.nodes|].parent == h.nodes[c].parent
  {
    var n := |h.nodes|;
    assert NodeOk(h, c);
    var s := h.nodes[c].next;
    var nodes1 := h.nodes[c := h.nodes[c].(next := At(n))];
    var nodes2 := if s.At? then nodes1[s.i := nodes1[s.i].(pre := At(n))] else nodes1;
    Heap(nodes2 + [Node(None, None, h.nodes[c].parent, Null, Null, Null, At(c))],
         h.depth + [h.depth[c]],
         h.pos + [h.pos[c] + 1])
  }

  lemma AppendRanked(h: Heap, c: nat)
    requires Ranked(h) && c < |h.nodes|
    ensures Ranked(Append(h, c))
  {
    var h' := Append(h, c);
    forall i | 0 <= i < |h'.nodes| ensures NodeOk(h', i) {
      AppendNodeOk(h, c, i);
    }
  }

  lemma AppendNodeOk(h: Heap, c: nat, i: nat)
    requires Ranked(h) && c < |h.nodes| && i <= |h.nodes|
    ensures var h' := Append(h, c); |h'.depth| == |h'.pos| == |h'.nodes| && NodeOk(h', i)
  {
    var h' := Append(h, c);
    assert NodeOk(h, c);
    var s := h.nodes[c].next;
    assert Grown(h, h');
    if i == |h.nodes| {
      if s.At? { assert NodeOk(h, s.i); }
    } else if i != c {
      assert NodeOk(h, i);
      assert Shape(h'.nodes[i]) == Shape(h.nodes[i]);
      GrownNodeOk(h, h', i);
    }
  }

  /** Storing a name (a fresh copy in the C). */
  ghost function PutName(h: Heap, i: nat, name: Bytes): (h': Heap)
    requires Ranked(h) && i < |h.nodes|
    ensures Ranked(h') && |h'.nodes| == |h.nodes|
    ensures h'.nodes[i].name == Some(name) && h'.nodes[i].value == h.nodes[i].value
    ensures forall k :: 0 <= k < |h.nodes| && k != i ==> h'.nodes[k] == h.nodes[k]
    ensures Shape(h'.nodes[i]) == Shape(h.nodes[i].(name := Some(name)))
  {
    var h' := h.(nodes := h.nodes[i := h.nodes[i].(name := Some(name))]);
    assert forall k :: 0 <= k < |h'.nodes| ==> NodeOk(h', k) by {
      forall k | 0 <= k < |h'.nodes| ensures NodeOk(h', k) { assert NodeOk(h, k); }
    }
    h'
  }

  /** Storing a value (a fresh copy in the C; `value_len` is its length). */
  ghost function PutValue(h: Heap, i: nat, value: Bytes): (h': Heap)
    requires Ranked(h) && i < |h.nodes|
    ensures Ranked(h') && |h'.nodes| == |h.nodes|
    ensures h'.nodes[i].value == Some(value) && h'.nodes[i].name == h.nodes[i].name
    ensures forall k :: 0 <= k < |h.nodes| && k != i ==> h'.nodes[k] == h.nodes[k]
    ensures Shape(h'.nodes[i]) == Shape(h.nodes[i].(value := Some(value)))
  {
    var h' := h.(nodes := h.nodes[i := h.nodes[i].(value := Some(value))]);
    assert forall k :: 0 <= k < |h'.nodes| ==> NodeOk(h', k) by {
      forall k | 0 <= k < |h'.nodes| ensures NodeOk(h', k) { assert NodeOk(h, k); }
    }
    h'
  }

  // ---------------------------------------------------------------------
  // What the splices do to the chains.

  /** Following `node_next` k steps from r raises `pos` by k. */
  lemma {:induction false} ChainPos(h: Heap, r: Ref)
    requires Ranked(h) && r.At? && r.i < |h.nodes|
    ensures forall k :: 0 <= k < |Chain(h, r)| ==> h.pos[Chain(h, r)[k]] == h.pos[r.i] + k
    decreases PM(h, r)
  {
    assert NodeOk(h, r.i);
    var nx := h.nodes[r.i].next;
    if nx.At? {
      ChainPos(h, nx);
    }
  }

  /** A chain depends only on the `node_next` links of the nodes it meets. */
  lemma {:induction false} ChainFrame(h1: Heap, h2: Heap, r: Ref)
    requires Ranked(h1) && Ranked(h2) && |h1.nodes| <= |h2.nodes| && InRange(r, |h1.nodes|)
    requires forall i :: 0 <= i < |h1.nodes| ==> h2.nodes[i].next == h1.nodes[i].next
    ensures Chain(h2, r) == Chain(h1, r)
    decreases PM(h1, r)
  {
    if r.At? {
      assert NodeOk(h1, r.i);
      ChainFrame(h1, h2, h1.nodes[r.i].next);
    }
  }

  /** create_childnode / create_attrnode: the new node heads p's chain, in
      front of the old chain; its parent is p; the old head's `node_pre` is the
      new node; every other node keeps its fields but `node_pre`. */
  lemma AddUnderHead(h: Heap, p: nat, k: Link)
    requires Ranked(h) && p < |h.nodes|
    ensures var h' := AddUnder(h, At(p), k);
      var n := |h.nodes|;
      var hd := Head(h.nodes[p], k);
      && |h'.nodes| == n + 1
      && Head(h'.nodes[p], k) == At(n)
      && h'.nodes[n] == Node(None, None, At(p), Null, Null, hd, Null)
      && InRange(hd, n)
      && Chain(h', Head(h'.nodes[p], k)) == [n] + Chain(h, hd)
      && (hd.At? ==> h'.nodes[hd.i].pre == At(n))
      && Shape(h'.nodes[p]) == Shape(WithHead(h.nodes[p], k, At(n)))
      && (forall i :: 0 <= i < n && i != p ==> Shape(h'.nodes[i]) == Shape(h.nodes[i]))
  {
    var h' := AddUnder(h, At(p), k);
    var n := |h.nodes|;
    assert NodeOk(h, p);
    var hd := Head(h.nodes[p], k);
    assert NodeOk(h', n);
    assert forall i :: 0 <= i < n ==> h'.nodes[i].next == h.nodes[i].next;
    ChainFrame(h, h', hd);
  }

  /** create_nextnode as written: the new node becomes c's successor with c's
      parent and `node_pre` c, and any chain through c now ends right after the
      new node -- the old successor is no longer reached (only its `node_pre`
      names the new node). */
  lemma {:induction false} AddNextCutsChain(h: Heap, c: nat, x: Ref, k: nat)
    requires Ranked(h) && c < |h.nodes| && InRange(x, |h.nodes|)
    requires k < |Chain(h, x)| && Chain(h, x)[k] == c
    ensures var h' := AddNext(h, At(c));
      var n := |h.nodes|;
      && |h'.nodes| == n + 1
      && h'.nodes[n] == Node(None, None, h.nodes[c].parent, Null, Null, Null, At(c))
      && h'.nodes[c].next == At(n)
      && (h.nodes[c].next.At? ==> h.nodes[c].next.i < n && h'.nodes[h.nodes[c].next.i].pre == At(n))
      && Chain(h', x) == Chain(h, x)[..k + 1] + [n]
    decreases k
  {
    var h' := AddNext(h, At(c));
    var n := |h.nodes|;
    assert NodeOk(h, c);
    assert x.At?;
    if k == 0 {
      assert Chain(h', At(n)) == [n];
    } else {
      ChainPos(h, x);
      assert x.i != c;
      assert NodeOk(h, x.i);
      var nx := h.nodes[x.i].next;
      assert Chain(h, x)[1..] == Chain(h, nx);
      AddNextCutsChain(h, c, nx, k - 1);
      assert Chain(h, x)[..k + 1] == [x.i] + Chain(h, nx)[..k];
    }
  }

  // ---------------------------------------------------------------------
  // Frames: a subtree's value depends only on the nodes it is made of.

  predicate In(r: Ref, lo: int, hi: int) {
    r.At? ==> lo <= r.i < hi
  }

  predicate LinksIn(n: Node, lo: int, hi: int) {
    In(n.next, lo, hi) && In(n.child, lo, hi) && In(n.attr, lo, hi)
  }

  /** Nodes lo..hi-1 link only among themselves. */
  ghost predicate Closed(h: Heap, lo: nat, hi: nat) {
    && lo <= hi <= |h.nodes|
    && forall i :: lo <= i < hi ==> LinksIn(h.nodes[i], lo, hi)
  }

  /** Nodes lo..hi-1 exist in both heaps with the same shape. */
  ghost predicate SameOn(h1: Heap, h2: Heap, lo: nat, hi: nat) {
    && hi <= |h1.nodes|
    && hi <= |h2.nodes|
    && forall i :: lo <= i < hi ==> Shape(h1.nodes[i]) == Shape(h2.nodes[i])
  }

  lemma {:induction false} ForestFrame(h1: Heap, h2: Heap, lo: nat, hi: nat, r: Ref)
    requires Ranked(h1) && Ranked(h2) && Closed(h1, lo, hi) && SameOn(h1, h2, lo, hi) && In(r, lo, hi)
    ensures Forest(h1, r) == Forest(h2, r)
    decreases DM(h1, r), PM(h1, r), 1
  {
    if r.At? {
      assert NodeOk(h1, r.i) && LinksIn(h1.nodes[r.i], lo, hi);
      assert Shape(h1.nodes[r.i]) == Shape(h2.nodes[r.i]);
      TreeFrame(h1, h2, lo, hi, r.i);
      ForestFrame(h1, h2, lo, hi, h1.nodes[r.i].next);
    }
  }

  lemma {:induction false} TreeFrame(h1: Heap, h2: Heap, lo: nat, hi: nat, i: nat)
    requires Ranked(h1) && Ranked(h2) && Closed(h1, lo, hi) && SameOn(h1, h2, lo, hi) && lo <= i < hi
    ensures TreeAt(h1, i) == TreeAt(h2, i)
    decreases DM(h1, At(i)), PM(h1, At(i)), 0
  {
    assert NodeOk(h1, i) && LinksIn(h1.nodes[i], lo, hi);
    assert Shape(h1.nodes[i]) == Shape(h2.nodes[i]);
    ForestFrame(h1, h2, lo, hi, h1.nodes[i].attr);
    ForestFrame(h1, h2, lo, hi, h1.nodes[i].child);
  }

  /** Node s heads a subtree made of nodes s..e-1 (its own `node_next` may
      point anywhere). */
  ghost predicate SubtreeIn(h: Heap, s: nat, e: nat) {
    && s < e <= |h.nodes|
    && In(h.nodes[s].attr, s + 1, e)
    && In(h.nodes[s].child, s + 1, e)
    && Closed(h, s + 1, e)
  }

  lemma SubtreeFrame(h1: Heap, h2: Heap, s: nat, e: nat)
    requires Ranked(h1) && Ranked(h2) && SubtreeIn(h1, s, e) && SameOn(h1, h2, s, e)
    ensures TreeAt(h1, s) == TreeAt(h2, s)
  {
    assert Shape(h1.nodes[s]) == Shape(h2.nodes[s]);
    ForestFrame(h1, h2, s + 1, e, h1.nodes[s].attr);
    ForestFrame(h1, h2, s + 1, e, h1.nodes[s].child);
  }

  // ---------------------------------------------------------------------
  // The document (struct BXML_DATA).

  class Doc {
    var nodes: seq<Node>
    var root: Ref
    var cur: Ref
    var version: nat
    var flag: nat
    ghost var depth: seq<int>
    ghost var pos: seq<int>

    ghost function H(): Heap
      reads this
    {
      Heap(nodes, depth, pos)
    }

    ghost predicate Valid()
      reads this
    {
      Ranked(H()) && root == RootOf(|nodes|) && InRange(cur, |nodes|)
    }

    /** A zeroed BXML_DATA. */
    constructor ()
      ensures Valid() && nodes == [] && root == Null && cur == Null && version == 0 && flag == 0
    {
      nodes := [];
      root := Null;
      cur := Null;
      version := 0;
      flag := 0;
      depth := [];
      pos := [];
    }

    /** create_node (allocation assumed to succeed): the first node ever
        created becomes node_root. */
    method CreateNode() returns (n: nat)
      requires Valid()
      modifies this
      ensures Valid() && n == |old(nodes)|
      ensures H() == NewNode(old(H()))
      ensures old(root) == Null ==> root == At(n)
      ensures cur == old(cur) && version == old(version) && flag == old(flag)
    {
      ghost var h := H();
      n := |nodes|;
      nodes := nodes + [Blank];
      depth := depth + [0];
      pos := pos + [0];
      if root == Null {
        root := At(n);
      }
      assert H() == NewNode(h);
    }

    /** create_childnode */
    method CreateChild(p: Ref) returns (n: nat)
      requires Valid() && InRange(p, |nodes|)
      modifies this
      ensures Valid() && n == |old(nodes)|
      ensures H() == AddUnder(old(H()), p, ChildLink)
      ensures cur == old(cur) && version == old(version) && flag == old(flag)
    {
      ghost var h := H();
      n := CreateNode();
      if p.At? {
        assert NodeOk(h, p.i);
        var hd := nodes[p.i].child;
        nodes := nodes[n := nodes[n].(next := hd)];
        if hd.At? {
          nodes := nodes[hd.i := nodes[hd.i].(pre := At(n))];
        }
        nodes := nodes[n := nodes[n].(parent := p)];
        nodes := nodes[p.i := nodes[p.i].(child := At(n))];
        depth := Splice(h, p.i, ChildLink).depth;
        pos := Splice(h, p.i, ChildLink).pos;
        assert nodes == Splice(h, p.i, ChildLink).nodes;
      }
      assert H() == AddUnder(h, p, ChildLink);
    }

    /** create_attrnode */
    method CreateAttr(p: Ref) returns (n: nat)
      requires Valid() && InRange(p, |nodes|)
      modifies this
      ensures Valid() && n == |old(nodes)|
      ensures H() == AddUnder(old(H()), p, AttrLink)
      ensures cur == old(cur) && version == old(version) && flag == old(flag)
    {
      ghost var h := H();
      n := CreateNode();
      if p.At? {
        assert NodeOk(h, p.i);
        var hd := nodes[p.i].attr;
        nodes := nodes[n := nodes[n].(next := hd)];
        if hd.At? {
          nodes := nodes[hd.i := nodes[hd.i].(pre := At(n))];
        }
        nodes := nodes[n := nodes[n].(parent := p)];
        nodes := nodes[p.i := nodes[p.i].(attr := At(n))];
        depth := Splice(h, p.i, AttrLink).depth;
        pos := Splice(h, p.i, AttrLink).pos;
        assert nodes == Splice(h, p.i, AttrLink).nodes;
      }
      assert H() == AddUnder(h, p, AttrLink);
    }

    /** create_nextnode, as written (the new node's `node_next` stays NULL). */
    method CreateNext(c: Ref) returns (n: nat)
      requires Valid() && InRange(c, |nodes|)
      modifies this
      ensures Valid() && n == |old(nodes)|
      ensures H() == AddNext(old(H()), c)
      ensures cur == old(cur) && version == old(version) && flag == old(flag)
    {
      ghost var h := H();
      n := CreateNode();
      if c.At? {
        assert NodeOk(h, c.i);
        nodes := nodes[n := nodes[n].(pre := c)];
        var s := nodes[c.i].next;
        if s.At? {
          nodes := nodes[s.i := nodes[s.i].(pre := At(n))];
        }
        nodes := nodes[c.i := nodes[c.i].(next := At(n))];
        nodes := nodes[n := nodes[n].(parent := nodes[c.i].parent)];
        depth := AddNext(h, c).depth;
        pos := AddNext(h, c).pos;
        assert nodes == AddNext(h, c).nodes;
      }
      assert H() == AddNext(h, c);
    }

    /** `nod->name_len = len; nod->name = copy` */
    method SetName(i: nat, name: Bytes)
      requires Valid() && i < |nodes|
      modifies this
      ensures Valid() && H() == PutName(old(H()), i, name)
      ensures cur == old(cur) && version == old(version) && flag == old(flag)
    {
      ghost var h := H();
      nodes := nodes[i := nodes[i].(name := Some(name))];
      assert H() == PutName(h, i, name);
    }

    /** `nod->value_len = len; nod->value = copy` */
    method SetValue(i: nat, value: Bytes)
      requires Valid() && i < |nodes|
      modifies this
      ensures Valid() && H() == PutValue(old(H()), i, value)
      ensures cur == old(cur) && version == old(version) && flag == old(flag)
    {
      ghost var h := H();
      nodes := nodes[i := nodes[i].(value := Some(value))];
      assert H() == PutValue(h, i, value);
    }
  }
}
