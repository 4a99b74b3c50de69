/** What the lookups of the path resolver promise: a search returns the
    first match of its chain, and a lookup in create mode, repeated on the
    arena it left, finds the node it made instead of making another. */
module PathFacts {
  import opened Base
  import opened Store
  import opened PathResolver

  // ---------------------------------------------------------------------
  // Searches return the first match.

  /** Find returns the first node of the chain carrying the name, and Null
      exactly when no node of the chain carries it; k is that node's place
      in the chain (the chain's length when there is none). */
  lemma {:induction false} FindIsFirst(h: Heap, r: Ref, name: Bytes) returns (k: nat)
    requires Ranked(h) && InRange(r, |h.nodes|)
    ensures var c := Chain(h, r);
      && k <= |c|
      && (forall j :: 0 <= j < k ==> !NameIs(h.nodes[c[j]], name))
      && (k < |c| ==> NameIs(h.nodes[c[k]], name) && Find(h, r, name) == At(c[k]))
      && (k == |c| <==> Find(h, r, name).Null?)
    decreases PM(h, r)
  {
    if r.Null? {
      return 0;
    }
    assert NodeOk(h, r.i);
    if NameIs(h.nodes[r.i], name) {
      return 0;
    }
    var nx := h.nodes[r.i].next;
    var k' := FindIsFirst(h, nx, name);
    assert Chain(h, r) == [r.i] + Chain(h, nx);
    k := k' + 1;
  }

  /** FindWhere likewise, for the first node carrying the name and meeting
      every condition. */
  lemma {:induction false} FindWhereIsFirst(h: Heap, r: Ref, name: Bytes, cs: seq<Cond>) returns (k: nat)
    requires Ranked(h) && InRange(r, |h.nodes|)
    ensures var c := Chain(h, r);
      && k <= |c|
      && (forall j :: 0 <= j < k ==> !(NameIs(h.nodes[c[j]], name) && MeetsAll(h, c[j], cs)))
      && (k < |c| ==> NameIs(h.nodes[c[k]], name) && MeetsAll(h, c[k], cs)
                      && FindWhere(h, r, name, cs) == At(c[k]))
      && (k == |c| <==> FindWhere(h, r, name, cs).Null?)
    decreases PM(h, r)
  {
    if r.Null? {
      return 0;
    }
    assert NodeOk(h, r.i);
    if NameIs(h.nodes[r.i], name) && MeetsAll(h, r.i, cs) {
      return 0;
    }
    var nx := h.nodes[r.i].next;
    var k' := FindWhereIsFirst(h, nx, name, cs);
    assert Chain(h, r) == [r.i] + Chain(h, nx);
    k := k' + 1;
  }

  // ---------------------------------------------------------------------
  // What a lookup leaves of the old nodes.

  /** The old nodes keep their names and their `node_next` and
      `node_parent` links. */
  ghost predicate Kept(h1: Heap, h2: Heap) {
    && |h1.nodes| <= |h2.nodes|
    && forall i :: 0 <= i < |h1.nodes| ==>
         && h2.nodes[i].name == h1.nodes[i].name
         && h2.nodes[i].next == h1.nodes[i].next
         && h2.nodes[i].parent == h1.nodes[i].parent
  }

  /** ... and their `node_child` links too. */
  ghost predicate Framed(h1: Heap, h2: Heap) {
    && Kept(h1, h2)
    && forall i :: 0 <= i < |h1.nodes| ==> h2.nodes[i].child == h1.nodes[i].child
  }

  /** A search depends only on the names and `node_next` links. */
  lemma {:induction false} FindFrame(h1: Heap, h2: Heap, r: Ref, name: Bytes)
    requires Ranked(h1) && Ranked(h2) && Kept(h1, h2) && InRange(r, |h1.nodes|)
    ensures Find(h2, r, name) == Find(h1, r, name)
    decreases PM(h1, r)
  {
    if r.At? {
      assert NodeOk(h1, r.i);
      FindFrame(h1, h2, h1.nodes[r.i].next, name);
    }
  }

  /** A named node made under p: it heads p's chain k in front of the old
      head, carries the name and no value; the old nodes keep their names,
      values and links but p's head of chain k (and `node_pre`). */
  lemma AddNamedFacts(h: Heap, p: nat, k: Link, name: Bytes)
    requires Ranked(h) && p < |h.nodes|
    ensures var h' := AddNamed(h, p, k, name); var n := |h.nodes|;
      && Head(h'.nodes[p], k) == At(n)
      && h'.nodes[n].name == Some(name) && h'.nodes[n].value == None
      && h'.nodes[n].next == Head(h.nodes[p], k)
      && Kept(h, h')
      && (k == AttrLink ==> Framed(h, h') && h'.nodes[p].child == h.nodes[p].child)
      && (k == ChildLink ==> h'.nodes[p].attr == h.nodes[p].attr)
      && (forall i :: 0 <= i < n ==> h'.nodes[i].value == h.nodes[i].value)
  {
    var n := |h.nodes|;
    AddUnderHead(h, p, k);
    var h1 := AddUnder(h, At(p), k);
    var h' := AddNamed(h, p, k, name);
    assert h' == PutName(h1, n, name);
    forall i | 0 <= i < n
      ensures h'.nodes[i] == h1.nodes[i]
      ensures Shape(h1.nodes[i]) == Shape(if i == p then WithHead(h.nodes[p], k, At(n)) else h.nodes[i])
    {
    }
  }

  // ---------------------------------------------------------------------
  // A second lookup in create mode finds what the first one made.

  /** get_attrnode in create mode, repeated on the arena it left, returns the
      same node and makes nothing (with or without create). */
  lemma AttrNodeAgain(h: Heap, p: nat, name: Bytes)
    requires Ranked(h) && p < |h.nodes| && NoNul(name)
    ensures var x := AttrNode(h, p, name, true);
      AttrNode(x.h, p, name, true) == x && AttrNode(x.h, p, name, false) == x
  {
    assert NodeOk(h, p);
    if Find(h, h.nodes[p].attr, name).Null? {
      AddNamedFacts(h, p, AttrLink, name);
      CStrOfClean(name);
      var h' := AddNamed(h, p, AttrLink, name);
      assert Find(h', h'.nodes[p].attr, name) == At(|h.nodes|);
    }
  }

  /** get_childnode without a condition likewise. */
  lemma ChildNodeAgain(h: Heap, p: nat, name: Bytes)
    requires Ranked(h) && p < |h.nodes| && NoNul(name)
    ensures var x := ChildNode(h, p, name, true);
      ChildNode(x.h, p, name, true) == x && ChildNode(x.h, p, name, false) == x
  {
    assert NodeOk(h, p);
    if name != Down && name != Up && name != Here && Find(h, h.nodes[p].child, name).Null? {
      AddNamedFacts(h, p, ChildLink, name);
      CStrOfClean(name);
      var h' := AddNamed(h, p, ChildLink, name);
      assert Find(h', h'.nodes[p].child, name) == At(|h.nodes|);
    }
  }

  /** A search that returns a node returns one carrying the name. */
  lemma {:induction false} FindHit(h: Heap, r: Ref, name: Bytes)
    requires Ranked(h) && InRange(r, |h.nodes|)
    ensures var f := Find(h, r, name); f.At? ==> NameIs(h.nodes[f.i], name)
    decreases PM(h, r)
  {
    if r.At? && !NameIs(h.nodes[r.i], name) {
      assert NodeOk(h, r.i);
      FindHit(h, h.nodes[r.i].next, name);
    }
  }

  lemma FramedTrans(h1: Heap, h2: Heap, h3: Heap)
    requires Framed(h1, h2) && Framed(h2, h3)
    ensures Framed(h1, h3)
  {
  }

  // ---------------------------------------------------------------------
  // Storing conditions on a made node.

  /** No two conditions give one attribute two different values. */
  ghost predicate Consistent(cs: seq<Cond>) {
    forall i, j :: 0 <= i < |cs| && 0 <= j < |cs| && cs[i].attr == cs[j].attr ==> cs[i].value == cs[j].value
  }

  /** Attribute names and values hold no NUL (they come from a C string). */
  predicate CondsClean(cs: seq<Cond>) {
    forall i :: 0 <= i < |cs| ==> NoNul(cs[i].attr) && NoNul(cs[i].value)
  }

  /** Storing a condition on n touches only n's attribute chain and the
      values of attribute nodes. */
  lemma AddCondFrame(h: Heap, n: nat, c: Cond)
    requires Ranked(h) && n < |h.nodes|
    ensures Framed(h, AddCond(h, n, c))
  {
    assert NodeOk(h, n);
    if Find(h, h.nodes[n].attr, c.attr).Null? {
      AddNamedFacts(h, n, AttrLink, c.attr);
    }
  }

  lemma {:induction false} AddCondsFrame(h: Heap, n: nat, cs: seq<Cond>)
    requires Ranked(h) && n < |h.nodes|
    ensures Framed(h, AddConds(h, n, cs))
    decreases |cs|
  {
    if |cs| > 0 {
      var h1 := AddConds(h, n, cs[..|cs| - 1]);
      AddCondsFrame(h, n, cs[..|cs| - 1]);
      AddCondFrame(h1, n, cs[|cs| - 1]);
      FramedTrans(h, h1, AddConds(h, n, cs));
    }
  }

  /** After a condition is stored on n, n meets it. */
  lemma AddCondMeets(h: Heap, n: nat, c: Cond)
    requires Ranked(h) && n < |h.nodes| && NoNul(c.attr) && NoNul(c.value)
    ensures Meets(AddCond(h, n, c), n, c)
  {
    var x := AttrNode(h, n, c.attr, true);
    AttrNodeAgain(h, n, c.attr);
    assert NodeOk(x.h, n);
    var hd := x.h.nodes[n].attr;
    assert Find(x.h, hd, c.attr) == x.r;
    var a := x.r.i;
    var h' := PutValue(x.h, a, c.value);
    assert h'.nodes[n].attr == hd by {
      if n == a {
        assert Shape(h'.nodes[a]) == Shape(x.h.nodes[a].(value := Some(c.value)));
      }
    }
    assert Kept(x.h, h') by {
      forall i | 0 <= i < |x.h.nodes|
        ensures Shape(h'.nodes[i]) == Shape(x.h.nodes[i].(value := h'.nodes[i].value))
      {
      }
    }
    FindFrame(x.h, h', hd, c.attr);
    CStrOfClean(c.value);
  }

  /** Storing a condition on n keeps every condition n met, unless it gives
      the same attribute another value. */
  lemma AddCondKeeps(h: Heap, n: nat, c: Cond, c2: Cond)
    requires Ranked(h) && n < |h.nodes| && Meets(h, n, c2)
    requires NoNul(c.attr) && NoNul(c.value) && (c.attr == c2.attr ==> c.value == c2.value)
    ensures Meets(AddCond(h, n, c), n, c2)
  {
    assert NodeOk(h, n);
    var hd := h.nodes[n].attr;
    var b := Find(h, hd, c2.attr);
    var f := Find(h, hd, c.attr);
    var x := AttrNode(h, n, c.attr, true);
    var a := x.r.i;
    var h' := PutValue(x.h, a, c.value);
    assert Kept(x.h, h') && h'.nodes[n].attr == x.h.nodes[n].attr by {
      forall i | 0 <= i < |x.h.nodes|
        ensures Shape(h'.nodes[i]) == Shape(x.h.nodes[i].(value := h'.nodes[i].value))
      {
      }
    }
    CStrOfClean(c.attr);
    CStrOfClean(c.value);
    FindHit(h, hd, c2.attr);
    if f.At? {
      FindHit(h, hd, c.attr);
      FindFrame(h, h', hd, c2.attr);
      if a == b.i {
        assert c.attr == c2.attr;
      }
    } else {
      AddNamedFacts(h, n, AttrLink, c.attr);
      assert c.attr != c2.attr;
      assert Kept(h, h');
      assert NodeOk(h', a);
      FindFrame(h, h', hd, c2.attr);
      assert Find(h', At(a), c2.attr) == Find(h', hd, c2.attr);
    }
  }

  /** After the conditions are stored on n in turn, n meets them all. */
  lemma {:induction false} AddCondsMeet(h: Heap, n: nat, cs: seq<Cond>)
    requires Ranked(h) && n < |h.nodes| && Consistent(cs) && CondsClean(cs)
    ensures MeetsAll(AddConds(h, n, cs), n, cs)
    decreases |cs|
  {
    if |cs| > 0 {
      var init := cs[..|cs| - 1];
      var last := cs[|cs| - 1];
      var h1 := AddConds(h, n, init);
      var h' := AddConds(h, n, cs);
      assert forall i :: 0 <= i < |init| ==> init[i] == cs[i];
      AddCondsMeet(h, n, init);
      AddCondMeets(h1, n, last);
      forall l | 0 <= l < |cs| ensures Meets(h', n, cs[l]) {
        if l < |init| {
          assert Meets(h1, n, init[l]);
          AddCondKeeps(h1, n, last, init[l]);
        }
      }
    }
  }

  /** get_childnode with a condition, in create mode, repeated on the arena
      it left, returns the same node and makes nothing -- provided no two
      conditions give one attribute different values (otherwise the last
      value stored wins, the made node fails the earlier condition, and the
      second lookup makes another node). */
  lemma ChildWhereAgain(h: Heap, p: nat, name: Bytes, cs: seq<Cond>)
    requires Ranked(h) && p < |h.nodes| && NoNul(name) && Consistent(cs) && CondsClean(cs)
    ensures var x := ChildWhere(h, p, name, cs, true);
      ChildWhere(x.h, p, name, cs, true) == x && ChildWhere(x.h, p, name, cs, false) == x
  {
    assert NodeOk(h, p);
    if FindWhere(h, h.nodes[p].child, name, cs).Null? {
      var n := |h.nodes|;
      var h1 := AddNamed(h, p, ChildLink, name);
      AddNamedFacts(h, p, ChildLink, name);
      var h' := AddConds(h1, n, cs);
      AddCondsFrame(h1, n, cs);
      AddCondsMeet(h1, n, cs);
      CStrOfClean(name);
      assert NodeOk(h', p);
      assert FindWhere(h', h'.nodes[p].child, name, cs) == At(n);
    }
  }

  // ---------------------------------------------------------------------
  // A second lookup of the same segment in create mode.

  lemma SliceClean(s: Bytes, i: nat, j: nat)
    requires NoNul(s) && i <= j <= |s|
    ensures NoNul(s[i..j])
  {
    assert forall k :: 0 <= k < j - i ==> s[i..j][k] == s[i + k];
  }

  lemma {:induction false} FieldsClean(s: Bytes, v: nat, sep: Byte)
    requires NoNul(s) && v <= |s|
    ensures forall k :: 0 <= k < |Fields(s, v, sep)| ==> NoNul(Fields(s, v, sep)[k])
    decreases |s| - v
  {
    var p := NextSep(s, v, sep);
    SliceClean(s, v, p);
    if p < |s| {
      FieldsClean(s, p + 1, sep);
    } else {
      assert s[v..] == s[v..p];
    }
  }

  lemma {:induction false} ClausesClean(fs: seq<Bytes>)
    requires forall k :: 0 <= k < |fs| ==> NoNul(fs[k])
    ensures CondsClean(Clauses(fs))
    decreases |fs|
  {
    if |fs| > 0 {
      var f := fs[0];
      var m := IndexOf(f, EQUALS);
      if m < |f| {
        SliceClean(f, 0, m);
        SliceClean(f, m + 1, |f|);
        assert f[..m] == f[0..m] && f[m + 1..] == f[m + 1..|f|];
      }
      ClausesClean(fs[1..]);
    }
  }

  /** The conditions read from a C string hold no NUL. */
  lemma CondsOfClean(cond: Bytes)
    requires NoNul(cond)
    ensures CondsClean(Conds(cond))
  {
    FieldsClean(cond, 0, AMP);
    ClausesClean(Fields(cond, 0, AMP));
  }

  lemma KeptTrans(h1: Heap, h2: Heap, h3: Heap)
    requires Kept(h1, h2) && Kept(h2, h3)
    ensures Kept(h1, h3)
  {
  }

  /** get_attrnode touches only p's attribute chain. */
  lemma AttrNodeFramed(h: Heap, p: nat, name: Bytes, create: bool)
    requires Ranked(h) && p < |h.nodes|
    ensures Framed(h, AttrNode(h, p, name, create).h)
  {
    assert NodeOk(h, p);
    if create && Find(h, h.nodes[p].attr, name).Null? {
      AddNamedFacts(h, p, AttrLink, name);
    }
  }

  /** get_childnode with a condition keeps the old nodes' names, `node_next`
      and `node_parent`. */
  lemma ChildWhereKept(h: Heap, p: nat, name: Bytes, cs: seq<Cond>, create: bool)
    requires Ranked(h) && p < |h.nodes|
    ensures Kept(h, ChildWhere(h, p, name, cs, create).h)
  {
    assert NodeOk(h, p);
    if create && FindWhere(h, h.nodes[p].child, name, cs).Null? {
      AddNamedFacts(h, p, ChildLink, name);
      var h1 := AddNamed(h, p, ChildLink, name);
      AddCondsFrame(h1, |h.nodes|, cs);
      KeptTrans(h, h1, AddConds(h1, |h.nodes|, cs));
    }
  }

  /** A get_childnode that found its node finds it again after the arena
      changed only outside the old nodes' names and links. */
  lemma ChildNodeFrame(h1: Heap, h2: Heap, n: nat, name: Bytes)
    requires Ranked(h1) && Ranked(h2) && Framed(h1, h2) && n < |h1.nodes|
    requires ChildNode(h1, n, name, true).h == h1
    ensures ChildNode(h2, n, name, true) == Res(h2, ChildNode(h1, n, name, true).r)
  {
    assert NodeOk(h1, n);
    FindFrame(h1, h2, h1.nodes[n].child, name);
  }

  /** The text after the `?` of a conditional segment. */
  function CondText(seg: Bytes): Bytes {
    var q := IndexOf(seg, QMARK);
    if q < |seg| then seg[q + 1..] else []
  }

  /** One path segment resolved twice in create mode from the same node: the
      second time returns the node of the first and makes nothing, provided
      a conditional segment gives no attribute two values. */
  lemma SegAgain(h: Heap, n: nat, seg: Bytes)
    requires Ranked(h) && AllNamed(h) && n < |h.nodes| && NoNul(seg)
    requires Consistent(Conds(CondText(seg)))
    ensures var x := SegStep(h, n, seg, true); AllNamed(x.h) && SegStep(x.h, n, seg, true) == x
  {
    if 0 < |seg| < 256 {
      var q := IndexOf(seg, QMARK);
      if q < |seg| {
        CondAgain(h, n, seg);
      } else if IndexOf(seg, COLON) < |seg| {
        ColonAgain(h, n, seg);
      } else {
        ChildNodeAgain(h, n, seg);
      }
    }
  }

  /** SegAgain for a conditional segment `name?conditions`. */
  lemma CondAgain(h: Heap, n: nat, seg: Bytes)
    requires Ranked(h) && AllNamed(h) && n < |h.nodes| && NoNul(seg) && 0 < |seg| < 256
    requires IndexOf(seg, QMARK) < |seg| && Consistent(Conds(CondText(seg)))
    ensures var x := Lookup(h, n, seg, true); AllNamed(x.h) && Lookup(x.h, n, seg, true) == x
  {
    var x := Lookup(h, n, seg, true);
    var q := IndexOf(seg, QMARK);
    var cs := Conds(seg[q + 1..]);
    SliceClean(seg, q + 1, |seg|);
    assert seg[q + 1..] == seg[q + 1..|seg|];
    CondsOfClean(seg[q + 1..]);
    if q > 0 {
      SliceClean(seg, 0, q);
      assert seg[..q] == seg[0..q];
      ChildWhereAgain(h, n, seg[..q], cs);
    } else {
      assert NodeOk(h, n);
      var par := h.nodes[n].parent;
      if par.At? {
        var name := CStr(h.nodes[n].name.value);
        ChildWhereKept(h, par.i, name, cs, true);
        ChildWhereAgain(h, par.i, name, cs);
        assert x == ChildWhere(h, par.i, name, cs, true);
        assert x.h.nodes[n].parent == par && x.h.nodes[n].name == h.nodes[n].name;
      }
    }
  }

  /** SegAgain for an attribute segment `name:attr` (or `:attr`). */
  lemma ColonAgain(h: Heap, n: nat, seg: Bytes)
    requires Ranked(h) && AllNamed(h) && n < |h.nodes| && NoNul(seg) && 0 < |seg| < 256
    requires IndexOf(seg, QMARK) == |seg| && IndexOf(seg, COLON) < |seg|
    ensures var x := Lookup(h, n, seg, true); AllNamed(x.h) && Lookup(x.h, n, seg, true) == x
  {
    var c := IndexOf(seg, COLON);
    if c > 0 {
      BeforeColon(seg, c);
      PlainStep(h, n, seg[..c], true);
    }
    var x1 := if c > 0 then ChildNode(h, n, seg[..c], true) else Res(h, At(n));
    SliceClean(seg, c + 1, |seg|);
    assert seg[c + 1..] == seg[c + 1..|seg|];
    var x2 := AttrNode(x1.h, x1.r.i, seg[c + 1..], true);
    AttrNodeAgain(x1.h, x1.r.i, seg[c + 1..]);
    AttrNodeFramed(x1.h, x1.r.i, seg[c + 1..], true);
    if c > 0 {
      PlainStep(x2.h, n, seg[..c], true);
      SliceClean(seg, 0, c);
      assert seg[..c] == seg[0..c];
      ChildNodeAgain(h, n, seg[..c]);
      ChildNodeFrame(x1.h, x2.h, n, seg[..c]);
    }
  }
}
