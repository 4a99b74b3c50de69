/** Loading a binary document (bxml.c:278-347): parse_bxml_node creates one
    node per record, at the head of the current node's attribute or child
    chain, and recurses into the record's attributes and children with the
    new node as current.  `Graft` is that effect as a function on heaps;
    the lemmas show that the nodes it adds form exactly the mirrored tree
    of the record, and that nothing else in the arena changes but the head
    of the parent's chain. */
module BinDecode {
  import opened Base
  import opened Store
  import opened BinCodec

  /** Number of nodes a tree takes in the arena. */
  function Count(t: Tree): nat
    decreases t, 1
  {
    1 + CountList(t.attrs) + CountList(t.kids)
  }

  function CountList(ts: seq<Tree>): nat
    decreases ts, 0
  {
    if |ts| == 0 then 0 else CountList(ts[..|ts| - 1]) + Count(ts[|ts| - 1])
  }

  /** The chain head that a node created under `par` finds in front of it. */
  function OldHead(h: Heap, par: Ref, k: Link): Ref
    requires InRange(par, |h.nodes|)
  {
    if par.At? then Head(h.nodes[par.i], k) else Null
  }

  /** The first half of parse_bxml_node: the new node, created under `par`
      with create_attrnode or create_childnode, and its name and value. */
  ghost function Started(h: Heap, par: Ref, k: Link, t: Tree): (h': Heap)
    requires Ranked(h) && InRange(par, |h.nodes|)
    ensures Ranked(h') && |h'.nodes| == |h.nodes| + 1
  {
    var n := |h.nodes|;
    var h1 := AddUnder(h, par, k);
    var h2 := if t.name.Some? then PutName(h1, n, t.name.value) else h1;
    if t.value.Some? then PutValue(h2, n, t.value.value) else h2
  }

  /** parse_bxml_node's effect for a decoded record t read with current node
      `par`: the new node, then its attribute records and its child records
      each grafted under it in turn. */
  ghost function Graft(h: Heap, par: Ref, k: Link, t: Tree): (h': Heap)
    requires Ranked(h) && InRange(par, |h.nodes|)
    ensures Ranked(h') && |h'.nodes| == |h.nodes| + Count(t)
    decreases t, 1
  {
    var n := |h.nodes|;
    var h3 := Started(h, par, k, t);
    var h4 := GraftList(h3, n, AttrLink, t.attrs);
    GraftList(h4, n, ChildLink, t.kids)
  }

  /** The records ts grafted one after the other under node `par`. */
  ghost function GraftList(h: Heap, par: nat, k: Link, ts: seq<Tree>): (h': Heap)
    requires Ranked(h) && par < |h.nodes|
    ensures Ranked(h') && |h'.nodes| == |h.nodes| + CountList(ts)
    decreases ts, 0
  {
    if |ts| == 0 then h
    else Graft(GraftList(h, par, k, ts[..|ts| - 1]), At(par), k, ts[|ts| - 1])
  }

  /** Every node below n but `par` keeps its shape. */
  ghost predicate KeptBelow(h: Heap, h': Heap, n: nat, par: Ref)
    requires n <= |h.nodes| && n <= |h'.nodes|
  {
    forall i :: 0 <= i < n && At(i) != par ==> Shape(h'.nodes[i]) == Shape(h.nodes[i])
  }

  /** What the first half of parse_bxml_node leaves: node n (the new one)
      carries t's name and value, has `par` as parent, no chains of its own,
      and the old head of par's chain as `node_next`; par heads its chain with
      n; every other older node keeps its shape. */
  ghost predicate StartedOk(h: Heap, h3: Heap, par: Ref, k: Link, t: Tree)
    requires InRange(par, |h.nodes|)
  {
    var n := |h.nodes|;
    && |h3.nodes| == n + 1
    && InRange(OldHead(h, par, k), n)
    && h3.nodes[n] == Node(t.name, t.value, par, Null, Null, OldHead(h, par, k), Null)
    && KeptBelow(h, h3, n, par)
    && (par.At? ==> Shape(h3.nodes[par.i]) == Shape(WithHead(h.nodes[par.i], k, At(n))))
  }

  /** What grafting a whole record t under `par` leaves: the new nodes
      n..n+Count(t)-1 hold the mirrored tree t, node n sits under `par` in
      front of par's old chain and heads that chain now; every other older
      node keeps its shape. */
  ghost predicate Grafted(h: Heap, h': Heap, par: Ref, k: Link, t: Tree)
    requires Ranked(h') && InRange(par, |h.nodes|)
  {
    var n := |h.nodes|;
    && |h'.nodes| == n + Count(t)
    && SubtreeIn(h', n, n + Count(t))
    && TreeAt(h', n) == Mirror(t)
    && h'.nodes[n].parent == par
    && h'.nodes[n].next == OldHead(h, par, k)
    && InRange(OldHead(h, par, k), n)
    && KeptBelow(h, h', n, par)
    && (par.At? ==> Shape(h'.nodes[par.i]) == Shape(WithHead(h.nodes[par.i], k, At(n))))
  }

  /** What grafting records ts under `par`, whose k chain was empty, leaves:
      the chain is made of the new nodes n.. only and holds the mirrored list
      of ts; every other older node keeps its shape. */
  ghost predicate ListBuilt(h: Heap, h': Heap, par: nat, k: Link, ts: seq<Tree>)
    requires Ranked(h') && par < |h.nodes|
  {
    var n := |h.nodes|;
    && |h'.nodes| == n + CountList(ts)
    && Closed(h', n, n + CountList(ts))
    && In(Head(h'.nodes[par], k), n, n + CountList(ts))
    && Forest(h', Head(h'.nodes[par], k)) == MirrorList(ts)
    && KeptBelow(h, h', n, At(par))
    && Shape(h'.nodes[par]) == Shape(WithHead(h.nodes[par], k, Head(h'.nodes[par], k)))
  }

  lemma StartedFacts(h: Heap, par: Ref, k: Link, t: Tree)
    requires Ranked(h) && InRange(par, |h.nodes|)
    ensures StartedOk(h, Started(h, par, k, t), par, k, t)
  {
    if par.At? {
      AddUnderHead(h, par.i, k);
    }
  }

  /** Graft builds exactly the record's tree, mirrored, under `par`. */
  lemma {:induction false} GraftFacts(h: Heap, par: Ref, k: Link, t: Tree)
    requires Ranked(h) && InRange(par, |h.nodes|)
    ensures Grafted(h, Graft(h, par, k, t), par, k, t)
    decreases t, 1
  {
    var n := |h.nodes|;
    var h3 := Started(h, par, k, t);
    StartedFacts(h, par, k, t);
    var h4 := GraftList(h3, n, AttrLink, t.attrs);
    GraftListFacts(h3, n, AttrLink, t.attrs);
    var h5 := GraftList(h4, n, ChildLink, t.kids);
    GraftListFacts(h4, n, ChildLink, t.kids);
    Assemble(h, h3, h4, h5, par, k, t);
  }

  /** Grafting ts under a node whose k chain is empty builds that chain. */
  lemma {:induction false} GraftListFacts(h: Heap, par: nat, k: Link, ts: seq<Tree>)
    requires Ranked(h) && par < |h.nodes| && Head(h.nodes[par], k) == Null
    ensures ListBuilt(h, GraftList(h, par, k, ts), par, k, ts)
    decreases ts, 0
  {
    if |ts| > 0 {
      var h0 := GraftList(h, par, k, ts[..|ts| - 1]);
      GraftListFacts(h, par, k, ts[..|ts| - 1]);
      GraftFacts(h0, At(par), k, ts[|ts| - 1]);
      Extend(h, h0, Graft(h0, At(par), k, ts[|ts| - 1]), par, k, ts);
    }
  }

  /** Putting Graft's pieces together: the attribute chain built in h4 and the
      child chain built in h5 under the new node n give n's subtree. */
  lemma Assemble(h: Heap, h3: Heap, h4: Heap, h5: Heap, par: Ref, k: Link, t: Tree)
    requires Ranked(h3) && Ranked(h4) && Ranked(h5) && InRange(par, |h.nodes|)
    requires StartedOk(h, h3, par, k, t)
    requires ListBuilt(h3, h4, |h.nodes|, AttrLink, t.attrs)
    requires Head(h4.nodes[|h.nodes|], ChildLink) == Null
    requires ListBuilt(h4, h5, |h.nodes|, ChildLink, t.kids)
    ensures Grafted(h, h5, par, k, t)
  {
    AssembleTree(h, h3, h4, h5, par, k, t);
    AssembleFrame(h, h3, h4, h5, par, k, t);
  }

  /** The new nodes of Assemble hold the record's tree. */
  lemma AssembleTree(h: Heap, h3: Heap, h4: Heap, h5: Heap, par: Ref, k: Link, t: Tree)
    requires Ranked(h3) && Ranked(h4) && Ranked(h5) && InRange(par, |h.nodes|)
    requires StartedOk(h, h3, par, k, t)
    requires ListBuilt(h3, h4, |h.nodes|, AttrLink, t.attrs)
    requires Head(h4.nodes[|h.nodes|], ChildLink) == Null
    requires ListBuilt(h4, h5, |h.nodes|, ChildLink, t.kids)
    ensures |h5.nodes| == |h.nodes| + Count(t)
    ensures SubtreeIn(h5, |h.nodes|, |h.nodes| + Count(t)) && TreeAt(h5, |h.nodes|) == Mirror(t)
  {
    var n, m, e := |h.nodes|, |h4.nodes|, |h5.nodes|;
    assert SameOn(h4, h5, n + 1, m);
    ClosedJoin(h4, h5, n + 1, m, e);
    ForestFrame(h4, h5, n + 1, m, h4.nodes[n].attr);
  }

  /** The older nodes of Assemble, and the links of the new head. */
  lemma AssembleFrame(h: Heap, h3: Heap, h4: Heap, h5: Heap, par: Ref, k: Link, t: Tree)
    requires Ranked(h3) && Ranked(h4) && Ranked(h5) && InRange(par, |h.nodes|)
    requires StartedOk(h, h3, par, k, t)
    requires ListBuilt(h3, h4, |h.nodes|, AttrLink, t.attrs)
    requires Head(h4.nodes[|h.nodes|], ChildLink) == Null
    requires ListBuilt(h4, h5, |h.nodes|, ChildLink, t.kids)
    ensures var n := |h.nodes|;
      && n < |h5.nodes|
      && h5.nodes[n].parent == par
      && h5.nodes[n].next == OldHead(h, par, k)
      && InRange(OldHead(h, par, k), n)
      && KeptBelow(h, h5, n, par)
      && (par.At? ==> Shape(h5.nodes[par.i]) == Shape(WithHead(h.nodes[par.i], k, At(n))))
  {
  }

  /** Two adjacent closed ranges, the first one carried over unchanged, form
      one closed range. */
  lemma ClosedJoin(h: Heap, h': Heap, lo: nat, mid: nat, hi: nat)
    requires Closed(h, lo, mid) && SameOn(h, h', lo, mid) && Closed(h', mid, hi)
    ensures Closed(h', lo, hi)
  {
    forall i | lo <= i < hi ensures LinksIn(h'.nodes[i], lo, hi) {
      if i < mid {
        assert LinksIn(h.nodes[i], lo, mid);
        assert Shape(h.nodes[i]) == Shape(h'.nodes[i]);
      } else {
        assert LinksIn(h'.nodes[i], mid, hi);
      }
    }
  }

  /** One more record grafted in front of the chain built so far. */
  lemma Extend(h: Heap, h0: Heap, h': Heap, par: nat, k: Link, ts: seq<Tree>)
    requires Ranked(h0) && Ranked(h') && par < |h.nodes| && |ts| > 0
    requires ListBuilt(h, h0, par, k, ts[..|ts| - 1])
    requires Grafted(h0, h', At(par), k, ts[|ts| - 1])
    ensures ListBuilt(h, h', par, k, ts)
  {
    var n, m, e := |h.nodes|, |h0.nodes|, |h'.nodes|;
    var hd0 := Head(h0.nodes[par], k);
    assert SameOn(h0, h', n, m);
    forall i | n <= i < e ensures LinksIn(h'.nodes[i], n, e) {
      if i < m {
        assert LinksIn(h0.nodes[i], n, m);
        assert Shape(h0.nodes[i]) == Shape(h'.nodes[i]);
      } else if i > m {
        assert LinksIn(h'.nodes[i], m + 1, e);
      }
    }
    ForestFrame(h0, h', n, m, hd0);
    assert Head(h'.nodes[par], k) == At(m);
    assert Forest(h', At(m)) == [TreeAt(h', m)] + Forest(h', hd0);
  }

  // ---------------------------------------------------------------------
  // parse_bxml_node itself.

  /** A decoded record is its fields followed by its attribute records and
      its child records. */
  lemma RecordParts(mem: Bytes, p: nat)
    requires p <= |mem| && DecodeRecord(mem, p).Decoded?
    ensures var r := DecodeRecord(mem, p); var f := ReadFields(mem, p);
      && f.Fields?
      && r.tree.name == Some(f.name) && r.tree.value == f.value
      && DecodeList(mem, f.next, f.attrCount).DecodedList?
      && DecodeList(mem, f.next, f.attrCount).trees == r.tree.attrs
      && DecodeList(mem, DecodeList(mem, f.next, f.attrCount).next, f.kidCount)
         == DecodedList(r.tree.kids, r.next)
  {
  }

  /** Record i of a list of records starts where records 0..i-1 end, and
      the rest of the list follows it. */
  lemma ListStep(mem: Bytes, q: nat, c: nat, i: nat, trees: seq<Tree>, e: nat)
    requires q <= |mem| && i < c && i <= |trees|
    requires DecodeList(mem, q, c - i) == DecodedList(trees[i..], e)
    ensures DecodeRecord(mem, q).Decoded? && |trees| == c
    ensures DecodeRecord(mem, q).tree == trees[i]
    ensures DecodeList(mem, DecodeRecord(mem, q).next, c - (i + 1)) == DecodedList(trees[i + 1..], e)
  {
    assert trees[i..][1..] == trees[i + 1..];
  }

  /** Grafting one more record of a list. */
  lemma GraftListSnoc(h: Heap, par: nat, k: Link, ts: seq<Tree>, i: nat)
    requires Ranked(h) && par < |h.nodes| && i < |ts|
    ensures GraftList(h, par, k, ts[..i + 1]) == Graft(GraftList(h, par, k, ts[..i]), At(par), k, ts[i])
  {
    assert ts[..i + 1][..i] == ts[..i];
  }

  /** parse_bxml_node: reads the record at p (type = k), creating its nodes
      under the current node, and returns where the record ends.  The arena
      becomes Graft of the decoded record, and the current node is the
      record's own node.  The input must hold a whole record: the C reads
      past its buffer otherwise. */
  method ParseBxmlNode(d: Doc, mem: Bytes, p: nat, k: Link) returns (q: nat)
    requires d.Valid() && p <= |mem| && DecodeRecord(mem, p).Decoded?
    modifies d
    ensures d.Valid()
    ensures q == DecodeRecord(mem, p).next
    ensures d.H() == Graft(old(d.H()), old(d.cur), k, DecodeRecord(mem, p).tree)
    ensures d.cur == At(|old(d.nodes)|)
    ensures d.version == old(d.version) && d.flag == old(d.flag)
    decreases |mem| - p, 0
  {
    ghost var h := d.H();
    ghost var r := DecodeRecord(mem, p);
    RecordParts(mem, p);
    var n: nat;
    if k == AttrLink {
      n := d.CreateAttr(d.cur);
    } else {
      n := d.CreateChild(d.cur);
    }
    d.cur := At(n);
    // name_len, name, attr_count, child_count, value_len and value, in turn
    var fields := ReadFields(mem, p);
    d.SetName(n, fields.name);
    if fields.value.Some? {
      d.SetValue(n, fields.value.value);
    }
    ghost var h3 := d.H();
    assert h3 == Started(h, old(d.cur), k, r.tree);
    q := ParseRecords(d, mem, fields.next, fields.attrCount, n, AttrLink);
    ghost var h4 := d.H();
    q := ParseRecords(d, mem, q, fields.kidCount, n, ChildLink);
  }

  /** The loops of parse_bxml_node over a record's attribute records (k =
      AttrLink) and child records (k = ChildLink): each record is read with
      node n current, and n is made current again from the new node's
      `node_parent`. */
  method ParseRecords(d: Doc, mem: Bytes, p: nat, count: nat, n: nat, k: Link) returns (q: nat)
    requires d.Valid() && d.cur == At(n) && n < |d.nodes|
    requires p <= |mem| && DecodeList(mem, p, count).DecodedList?
    modifies d
    ensures d.Valid() && d.cur == At(n)
    ensures q == DecodeList(mem, p, count).next
    ensures d.H() == GraftList(old(d.H()), n, k, DecodeList(mem, p, count).trees)
    ensures d.version == old(d.version) && d.flag == old(d.flag)
    decreases |mem| - p, 2
  {
    ghost var h := d.H();
    ghost var rs := DecodeList(mem, p, count);
    q := p;
    var i := 0;
    while i < count
      invariant 0 <= i <= count && p <= q <= |mem|
      invariant d.Valid() && d.cur == At(n) && n < |d.nodes|
      invariant d.version == old(d.version) && d.flag == old(d.flag)
      invariant DecodeList(mem, q, count - i) == DecodedList(rs.trees[i..], rs.next)
      invariant d.H() == GraftList(h, n, k, rs.trees[..i])
      decreases count - i
    {
      ListStep(mem, q, count, i, rs.trees, rs.next);
      q := ParseChild(d, mem, q, n, k);
      GraftListSnoc(h, n, k, rs.trees, i);
      i := i + 1;
    }
    assert rs.trees[..count] == rs.trees;
  }

  /** One turn of those loops: the record at p read under node n, then n
      made current again through the new node's `node_parent`. */
  method ParseChild(d: Doc, mem: Bytes, p: nat, n: nat, k: Link) returns (q: nat)
    requires d.Valid() && d.cur == At(n) && n < |d.nodes|
    requires p <= |mem| && DecodeRecord(mem, p).Decoded?
    modifies d
    ensures d.Valid() && d.cur == At(n)
    ensures q == DecodeRecord(mem, p).next
    ensures d.H() == Graft(old(d.H()), At(n), k, DecodeRecord(mem, p).tree)
    ensures d.version == old(d.version) && d.flag == old(d.flag)
    decreases |mem| - p, 1
  {
    ghost var h := d.H();
    q := ParseBxmlNode(d, mem, p, k);
    GraftFacts(h, At(n), k, DecodeRecord(mem, p).tree);
    if d.cur.At? {
      d.cur := d.nodes[d.cur.i].parent;
    }
  }
}
