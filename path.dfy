/** The path resolver of bxml.c (get_attrnode, get_childnode, parse_path).

    A path is a C string of `/`-separated segments, resolved from node_root
    when it starts with `/` and from node_cur otherwise.  A segment is a
    child name, one of the special names `.`, `..` and `...`, a conditional
    lookup `name?a=v&b=w`, or an attribute access `name:attr`; in create
    mode a name that is not found is made.  The functions on `Heap` values
    say what each lookup returns and how the arena grows; the methods of the
    C are proved to do exactly that. */
module PathResolver {
  import opened Base
  import opened Store

  /** What a lookup leaves: the arena (grown when it made nodes) and the
      node it found, or Null. */
  datatype Res = Res(h: Heap, r: Ref)

  /** The names strcmp is applied to are never NULL. */
  ghost predicate AllNamed(h: Heap) {
    forall i :: 0 <= i < |h.nodes| ==> h.nodes[i].name.Some?
  }

  /** `strcmp(nod->name, name) == 0` */
  predicate NameIs(n: Node, name: Bytes) {
    n.name.Some? && CStr(n.name.value) == name
  }

  /** A lookup's outcome: a well-formed arena that has only grown, keeps every
      name set, and holds the reference returned. */
  ghost predicate Good(h: Heap, x: Res) {
    && Ranked(x.h) && |h.nodes| <= |x.h.nodes| && InRange(x.r, |x.h.nodes|)
    && (AllNamed(h) ==> AllNamed(x.h))
  }

  // ---------------------------------------------------------------------
  // Searching a chain.

  /** The first node along `node_next` from r named `name`. */
  ghost function Find(h: Heap, r: Ref, name: Bytes): (f: Ref)
    requires Ranked(h) && InRange(r, |h.nodes|)
    ensures InRange(f, |h.nodes|)
    decreases PM(h, r)
  {
    if r.Null? then Null
    else if NameIs(h.nodes[r.i], name) then r
    else assert NodeOk(h, r.i); Find(h, h.nodes[r.i].next, name)
  }

  /** A condition `attr=value` of a conditional segment. */
  datatype Cond = Cond(attr: Bytes, value: Bytes)

  /** Node k's attribute `c.attr` exists, has a value, and the value is
      `c.value`. */
  ghost predicate Meets(h: Heap, k: nat, c: Cond)
    requires Ranked(h) && k < |h.nodes|
  {
    assert NodeOk(h, k);
    var a := Find(h, h.nodes[k].attr, c.attr);
    a.At? && h.nodes[a.i].value.Some? && CStr(h.nodes[a.i].value.value) == c.value
  }

  ghost predicate MeetsAll(h: Heap, k: nat, cs: seq<Cond>)
    requires Ranked(h) && k < |h.nodes|
  {
    forall j :: 0 <= j < |cs| ==> Meets(h, k, cs[j])
  }

  /** The first node along `node_next` from r named `name` that meets every
      condition. */
  ghost function FindWhere(h: Heap, r: Ref, name: Bytes, cs: seq<Cond>): (f: Ref)
    requires Ranked(h) && InRange(r, |h.nodes|)
    ensures InRange(f, |h.nodes|)
    decreases PM(h, r)
  {
    if r.Null? then Null
    else if NameIs(h.nodes[r.i], name) && MeetsAll(h, r.i, cs) then r
    else assert NodeOk(h, r.i); FindWhere(h, h.nodes[r.i].next, name, cs)
  }

  // ---------------------------------------------------------------------
  // The lookups.

  /** A node made at the head of p's chain k and named `name` (the C's
      create_childnode or create_attrnode, then a copy of the name). */
  ghost function AddNamed(h: Heap, p: nat, k: Link, name: Bytes): (h': Heap)
    requires Ranked(h) && p < |h.nodes|
    ensures Ranked(h') && |h'.nodes| == |h.nodes| + 1
    ensures AllNamed(h) ==> AllNamed(h')
  {
    var h1 := AddUnder(h, At(p), k);
    var h' := PutName(h1, |h.nodes|, name);
    assert AllNamed(h) ==> AllNamed(h') by {
      if AllNamed(h) {
        forall i | 0 <= i < |h'.nodes| ensures h'.nodes[i].name.Some? {
          if i < |h.nodes| {
            assert h'.nodes[i] == h1.nodes[i];
          }
        }
      }
    }
    h'
  }

  /** get_attrnode: p's first attribute named `name`; when there is none,
      a new one at the head of p's attributes in create mode, Null otherwise. */
  ghost function AttrNode(h: Heap, p: nat, name: Bytes, create: bool): (x: Res)
    requires Ranked(h) && p < |h.nodes|
    ensures Good(h, x)
    ensures create ==> x.r.At?
    ensures !create ==> x.h == h
  {
    assert NodeOk(h, p);
    var f := Find(h, h.nodes[p].attr, name);
    if f.At? then Res(h, f)
    else if create then Res(AddNamed(h, p, AttrLink, name), At(|h.nodes|))
    else Res(h, Null)
  }

  const Here: Bytes := [DOT]
  const Up: Bytes := [DOT, DOT]
  const Down: Bytes := [DOT, DOT, DOT]

  /** get_childnode without a condition: `...` is p's first child (p if it
      has none), `..` its parent (p if it has none), `.` p itself; any other
      name is p's first child of that name, made at the head of p's
      children in create mode when there is none. */
  ghost function ChildNode(h: Heap, p: nat, name: Bytes, create: bool): (x: Res)
    requires Ranked(h) && p < |h.nodes|
    ensures Good(h, x)
    ensures create ==> x.r.At?
    ensures !create ==> x.h == h
  {
    assert NodeOk(h, p);
    var n := h.nodes[p];
    if name == Down then Res(h, if n.child.At? then n.child else At(p))
    else if name == Up then Res(h, if n.parent.At? then n.parent else At(p))
    else if name == Here then Res(h, At(p))
    else
      var f := Find(h, n.child, name);
      if f.At? then Res(h, f)
      else if create then Res(AddNamed(h, p, ChildLink, name), At(|h.nodes|))
      else Res(h, Null)
  }

  /** One condition stored on a made node: get_attrnode in create mode, then
      the value copied in. */
  ghost function AddCond(h: Heap, n: nat, c: Cond): (h': Heap)
    requires Ranked(h) && n < |h.nodes|
    ensures Ranked(h') && |h.nodes| <= |h'.nodes|
    ensures AllNamed(h) ==> AllNamed(h')
  {
    var a := AttrNode(h, n, c.attr, true);
    PutValue(a.h, a.r.i, c.value)
  }

  /** The conditions stored in order. */
  ghost function AddConds(h: Heap, n: nat, cs: seq<Cond>): (h': Heap)
    requires Ranked(h) && n < |h.nodes|
    ensures Ranked(h') && |h.nodes| <= |h'.nodes|
    ensures AllNamed(h) ==> AllNamed(h')
    decreases |cs|
  {
    if |cs| == 0 then h
    else
      var h1 := AddConds(h, n, cs[..|cs| - 1]);
      AddCond(h1, n, cs[|cs| - 1])
  }

  /** get_childnode with a condition: p's first child of that name meeting
      every condition; when there is none, in create mode a new head child
      of that name carrying the conditions as attributes. */
  ghost function ChildWhere(h: Heap, p: nat, name: Bytes, cs: seq<Cond>, create: bool): (x: Res)
    requires Ranked(h) && p < |h.nodes|
    ensures Good(h, x)
    ensures create ==> x.r.At?
    ensures !create ==> x.h == h
  {
    assert NodeOk(h, p);
    var f := FindWhere(h, h.nodes[p].child, name, cs);
    if f.At? then Res(h, f)
    else if create then
      var h1 := AddNamed(h, p, ChildLink, name);
      Res(AddConds(h1, |h.nodes|, cs), At(|h.nodes|))
    else Res(h, Null)
  }

  // ---------------------------------------------------------------------
  // Splitting strings.

  /** Where the text from v on is next cut: the first `sep` at or after v,
      or the end of s. */
  function NextSep(s: Bytes, v: nat, sep: Byte): (p: nat)
    requires v <= |s|
    ensures v <= p <= |s| && (p < |s| ==> s[p] == sep)
    ensures forall k :: v <= k < p ==> s[k] != sep
    decreases |s| - v
  {
    if v == |s| || s[v] == sep then v else NextSep(s, v + 1, sep)
  }

  /** The `sep`-separated fields of s from v on (one more than the
      separators). */
  function Fields(s: Bytes, v: nat, sep: Byte): (r: seq<Bytes>)
    requires v <= |s|
    ensures |r| >= 1
    decreases |s| - v
  {
    var p := NextSep(s, v, sep);
    if p == |s| then [s[v..]] else [s[v..p]] + Fields(s, p + 1, sep)
  }

  /** A clause holding `=`, split at its first `=`, as one condition; a
      clause without one gives none (the C reports a syntax error). */
  function Clause(f: Bytes): (cs: seq<Cond>)
    ensures |cs| <= 1
  {
    var m := IndexOf(f, EQUALS);
    if m < |f| then [Cond(f[..m], f[m + 1..])] else []
  }

  function Clauses(fs: seq<Bytes>): seq<Cond> {
    if |fs| == 0 then [] else Clause(fs[0]) + Clauses(fs[1..])
  }

  /** The conditions of a conditional segment: at most the first 16 clauses
      holding `=`. */
  function Conds(cond: Bytes): (cs: seq<Cond>)
    ensures |cs| <= 16
  {
    var all := Clauses(Fields(cond, 0, AMP));
    if |all| <= 16 then all else all[..16]
  }

  // ---------------------------------------------------------------------
  // parse_path.

  /** One segment (the text between two `/`) applied to node n: an empty
      segment, or one of 256 bytes or more, leaves n as it is. */
  ghost function SegStep(h: Heap, n: nat, seg: Bytes, create: bool): (x: Res)
    requires Ranked(h) && AllNamed(h) && n < |h.nodes|
    ensures Good(h, x)
    ensures create ==> x.r.At?
    ensures !create ==> x.h == h
    decreases |seg|, 1
  {
    if |seg| == 0 || |seg| >= 256 then Res(h, At(n))
    else Lookup(h, n, seg, create)
  }

  /** A segment of 1 to 255 bytes.  With a `?`, the text before it names
      the child (an empty name stands for n itself, looked up again among its
      parent's children) and the text after it holds the conditions.  With a
      `:`, the text before it is resolved as a segment of its own (n itself
      when empty) and the text after it names an attribute of the result.
      Otherwise the segment names a child. */
  ghost function Lookup(h: Heap, n: nat, seg: Bytes, create: bool): (x: Res)
    requires Ranked(h) && AllNamed(h) && n < |h.nodes| && 0 < |seg| < 256
    ensures Good(h, x)
    ensures create ==> x.r.At?
    ensures !create ==> x.h == h
    decreases |seg|, 0
  {
    var q := IndexOf(seg, QMARK);
    if q < |seg| then
      var cs := Conds(seg[q + 1..]);
      if q > 0 then ChildWhere(h, n, seg[..q], cs, create)
      else
        assert NodeOk(h, n);
        var par := h.nodes[n].parent;
        if par.At? then ChildWhere(h, par.i, CStr(h.nodes[n].name.value), cs, create)
        else Res(h, At(n))
    else
      var c := IndexOf(seg, COLON);
      if c < |seg| then
        var x1 := if c > 0 then SegStep(h, n, seg[..c], create) else Res(h, At(n));
        if x1.r.At? then
          var x2 := AttrNode(x1.h, x1.r.i, seg[c + 1..], create);
          Res(x2.h, x2.r)
        else x1
      else ChildNode(h, n, seg, create)
  }

  /** A segment with neither `?` nor `:` is a plain child lookup. */
  lemma PlainStep(h: Heap, n: nat, name: Bytes, create: bool)
    requires Ranked(h) && AllNamed(h) && n < |h.nodes| && 0 < |name| < 256
    requires IndexOf(name, QMARK) == |name| && IndexOf(name, COLON) == |name|
    ensures SegStep(h, n, name, create) == ChildNode(h, n, name, create)
  {
  }

  /** The name before the first `:` of a segment without `?` holds neither. */
  lemma BeforeColon(seg: Bytes, c: nat)
    requires IndexOf(seg, QMARK) == |seg| && c == IndexOf(seg, COLON) && c < |seg|
    ensures IndexOf(seg[..c], QMARK) == c && IndexOf(seg[..c], COLON) == c
  {
    IndexOfIs(seg[..c], QMARK, c);
    IndexOfIs(seg[..c], COLON, c);
  }

  /** The segments applied in turn; a Null result ends the walk. */
  ghost function Walk(h: Heap, r: Ref, segs: seq<Bytes>, create: bool): (x: Res)
    requires Ranked(h) && AllNamed(h) && InRange(r, |h.nodes|)
    ensures Good(h, x)
    ensures !create ==> x.h == h
    ensures create && r.At? ==> x.r.At?
    decreases |segs|
  {
    if |segs| == 0 then Res(h, r)
    else if r.Null? then Res(h, Null)
    else
      var x := SegStep(h, r.i, segs[0], create);
      Walk(x.h, x.r, segs[1..], create)
  }

  /** Where a path starts, and the text after a leading `/`. */
  function StartOf(path: Bytes, root: Ref, cur: Ref): (Ref, Bytes) {
    if |path| > 0 && path[0] == SLASH then (root, path[1..]) else (cur, path)
  }

  /** parse_path on an arena with node_root `root` and node_cur `cur`; the
      path is read as a C string, up to its first NUL. */
  ghost function Resolve(h: Heap, root: Ref, cur: Ref, path: Bytes, create: bool): (x: Res)
    requires Ranked(h) && AllNamed(h) && InRange(root, |h.nodes|) && InRange(cur, |h.nodes|)
    ensures Good(h, x)
    ensures !create ==> x.h == h
  {
    var (start, rest) := StartOf(CStr(path), root, cur);
    Walk(h, start, Fields(rest, 0, SLASH), create)
  }

  /** Nothing after the path's first NUL matters: the loop stops there. */
  lemma ResolveCString(h: Heap, root: Ref, cur: Ref, path: Bytes, create: bool)
    requires Ranked(h) && AllNamed(h) && InRange(root, |h.nodes|) && InRange(cur, |h.nodes|)
    ensures Resolve(h, root, cur, path, create) == Resolve(h, root, cur, CStr(path), create)
    ensures forall tail :: Resolve(h, root, cur, CStr(path) + [NUL] + tail, create) == Resolve(h, root, cur, path, create)
  {
    CStrOfClean(CStr(path));
    forall tail ensures CStr(CStr(path) + [NUL] + tail) == CStr(path) {
      var s := CStr(path) + [NUL] + tail;
      IndexOfIs(s, NUL, |CStr(path)|);
    }
  }

  // ---------------------------------------------------------------------
  // The C's loops.

  /** The search loop of get_attrnode and get_childnode: walks `node_next`
      from r until a node named `name`. */
  method Search(nodes: seq<Node>, ghost h: Heap, r: Ref, name: Bytes) returns (f: Ref)
    requires Ranked(h) && nodes == h.nodes && InRange(r, |nodes|)
    ensures f == Find(h, r, name)
  {
    f := r;
    while f.At? && !NameIs(nodes[f.i], name)
      invariant InRange(f, |nodes|) && Find(h, f, name) == Find(h, r, name)
      decreases PM(h, f)
    {
      assert NodeOk(h, f.i);
      f := nodes[f.i].next;
    }
  }

  /** The condition loop of get_childnode: for each condition, the attribute
      is looked up (without creating it) and its value compared; the first
      failure stops the loop. */
  method MeetsAllConds(nodes: seq<Node>, ghost h: Heap, k: nat, cs: seq<Cond>) returns (ok: bool)
    requires Ranked(h) && nodes == h.nodes && k < |nodes|
    ensures ok == MeetsAll(h, k, cs)
  {
    assert NodeOk(h, k);
    var j := 0;
    while j < |cs|
      invariant 0 <= j <= |cs| && forall l :: 0 <= l < j ==> Meets(h, k, cs[l])
    {
      var a := Search(nodes, h, nodes[k].attr, cs[j].attr);
      if a.Null? || nodes[a.i].value.None? || CStr(nodes[a.i].value.value) != cs[j].value {
        assert !Meets(h, k, cs[j]);
        return false;
      }
      j := j + 1;
    }
    return true;
  }

  /** The search loop of get_childnode with a condition. */
  method SearchWhere(nodes: seq<Node>, ghost h: Heap, r: Ref, name: Bytes, cs: seq<Cond>) returns (f: Ref)
    requires Ranked(h) && nodes == h.nodes && InRange(r, |nodes|)
    ensures f == FindWhere(h, r, name, cs)
  {
    f := r;
    while f.At?
      invariant InRange(f, |nodes|) && FindWhere(h, f, name, cs) == FindWhere(h, r, name, cs)
      decreases PM(h, f)
    {
      assert NodeOk(h, f.i);
      if NameIs(nodes[f.i], name) {
        var ok := MeetsAllConds(nodes, h, f.i, cs);
        if ok {
          return;
        }
      }
      f := nodes[f.i].next;
    }
  }

  /** A new node at the head of p's chain k, with a copy of `name`. */
  method MakeNamed(d: Doc, p: nat, k: Link, name: Bytes) returns (n: nat)
    requires d.Valid() && p < |d.nodes|
    modifies d
    ensures d.Valid() && n == |old(d.nodes)| && d.H() == AddNamed(old(d.H()), p, k, name)
    ensures d.root == old(d.root) && d.cur == old(d.cur) && d.version == old(d.version) && d.flag == old(d.flag)
  {
    if k == ChildLink {
      n := d.CreateChild(At(p));
    } else {
      n := d.CreateAttr(At(p));
    }
    d.SetName(n, name);
  }

  /** get_attrnode */
  method GetAttrNode(d: Doc, p: nat, name: Bytes, create: bool) returns (r: Ref)
    requires d.Valid() && AllNamed(d.H()) && p < |d.nodes|
    modifies d
    ensures d.Valid() && Res(d.H(), r) == AttrNode(old(d.H()), p, name, create)
    ensures d.root == old(d.root) && d.cur == old(d.cur) && d.version == old(d.version) && d.flag == old(d.flag)
  {
    assert NodeOk(d.H(), p);
    r := Search(d.nodes, d.H(), d.nodes[p].attr, name);
    if r.Null? && create {
      var n := MakeNamed(d, p, AttrLink, name);
      r := At(n);
    }
  }

  /** get_childnode.  The condition, when there is one, is the text after
      the `?`, parsed here into at most 16 conditions. */
  method GetChildNode(d: Doc, p: nat, name: Bytes, condition: Option<Bytes>, create: bool) returns (r: Ref)
    requires d.Valid() && AllNamed(d.H()) && p < |d.nodes|
    modifies d
    ensures d.Valid()
    ensures condition.None? ==> Res(d.H(), r) == ChildNode(old(d.H()), p, name, create)
    ensures condition.Some? ==> Res(d.H(), r) == ChildWhere(old(d.H()), p, name, Conds(condition.value), create)
    ensures d.root == old(d.root) && d.cur == old(d.cur) && d.version == old(d.version) && d.flag == old(d.flag)
  {
    assert NodeOk(d.H(), p);
    var nod := d.nodes[p];
    if condition.None? {
      if name == Down {
        return if nod.child.At? then nod.child else At(p);
      } else if name == Up {
        return if nod.parent.At? then nod.parent else At(p);
      } else if name == Here {
        return At(p);
      }
      r := Search(d.nodes, d.H(), nod.child, name);
      if r.Null? && create {
        var n := MakeNamed(d, p, ChildLink, name);
        r := At(n);
      }
    } else {
      var cs := ParseConds(condition.value);
      r := SearchWhere(d.nodes, d.H(), nod.child, name, cs);
      if r.Null? && create {
        var n := MakeNamed(d, p, ChildLink, name);
        StoreConds(d, n, cs);
        r := At(n);
      }
    }
  }

  /** The loop storing the conditions on a made node. */
  method StoreConds(d: Doc, n: nat, cs: seq<Cond>)
    requires d.Valid() && AllNamed(d.H()) && n < |d.nodes|
    modifies d
    ensures d.Valid() && d.H() == AddConds(old(d.H()), n, cs)
    ensures d.root == old(d.root) && d.cur == old(d.cur) && d.version == old(d.version) && d.flag == old(d.flag)
  {
    ghost var h := d.H();
    var j := 0;
    while j < |cs|
      invariant 0 <= j <= |cs| && d.Valid() && n < |d.nodes|
      invariant d.H() == AddConds(h, n, cs[..j]) && AllNamed(d.H())
      invariant d.root == old(d.root) && d.cur == old(d.cur) && d.version == old(d.version) && d.flag == old(d.flag)
    {
      assert cs[..j + 1][..j] == cs[..j];
      StoreCond(d, n, cs[j]);
      j := j + 1;
    }
    assert cs[..j] == cs;
  }

  /** One condition stored on a made node. */
  method StoreCond(d: Doc, n: nat, c: Cond)
    requires d.Valid() && AllNamed(d.H()) && n < |d.nodes|
    modifies d
    ensures d.Valid() && d.H() == AddCond(old(d.H()), n, c) && n < |d.nodes|
    ensures d.root == old(d.root) && d.cur == old(d.cur) && d.version == old(d.version) && d.flag == old(d.flag)
  {
    var a := GetAttrNode(d, n, c.attr, true);
    d.SetValue(a.i, c.value);
  }

  /** The condition loop of get_childnode: the text is cut at each `&` (and
      at its end) and each clause holding `=` gives a condition; the loop
      stops after 16 conditions. */
  method ParseConds(cond: Bytes) returns (cs: seq<Cond>)
    ensures cs == Conds(cond)
  {
    cs := [];
    var v := 0;
    while true
      invariant 0 <= v <= |cond| && |cs| < 16
      invariant Clauses(Fields(cond, 0, AMP)) == cs + Clauses(Fields(cond, v, AMP))
      decreases |cond| - v
    {
      var p := Scan(cond, v, AMP);
      Advance(cond, v, p, cs);
      cs := cs + Clause(cond[v..p]);
      if p == |cond| {
        Limit(cond, cs, []);
        return;
      }
      v := p + 1;
      if |cs| == 16 {
        Limit(cond, cs, Clauses(Fields(cond, v, AMP)));
        return;
      }
    }
  }

  /** The scan for the next separator (or the end of the text) from v. */
  method Scan(s: Bytes, v: nat, sep: Byte) returns (p: nat)
    requires v <= |s|
    ensures p == NextSep(s, v, sep)
  {
    p := v;
    while p < |s| && s[p] != sep
      invariant v <= p <= |s| && NextSep(s, v, sep) == NextSep(s, p, sep)
    {
      p := p + 1;
    }
  }

  /** The first field of the text from v on, then the fields after it. */
  lemma {:induction false} FieldsNext(s: Bytes, v: nat, sep: Byte)
    requires v <= |s|
    ensures var p := NextSep(s, v, sep);
      && (p == |s| ==> Fields(s, v, sep) == [s[v..p]])
      && (p < |s| ==> Fields(s, v, sep) == [s[v..p]] + Fields(s, p + 1, sep))
  {
    var p := NextSep(s, v, sep);
    if p == |s| {
      assert s[v..p] == s[v..];
    }
  }

  /** The loop's invariant carried past the field that ends at p. */
  lemma {:induction false} Advance(cond: Bytes, v: nat, p: nat, cs: seq<Cond>)
    requires v <= |cond| && p == NextSep(cond, v, AMP)
    requires Clauses(Fields(cond, 0, AMP)) == cs + Clauses(Fields(cond, v, AMP))
    ensures p == |cond| ==> Clauses(Fields(cond, 0, AMP)) == cs + Clause(cond[v..p])
    ensures p < |cond| ==>
      Clauses(Fields(cond, 0, AMP)) == cs + Clause(cond[v..p]) + Clauses(Fields(cond, p + 1, AMP))
  {
    FieldsNext(cond, v, AMP);
    if p == |cond| {
      Shift(Clauses(Fields(cond, 0, AMP)), cs, Fields(cond, v, AMP), cond[v..p], []);
    } else {
      Shift(Clauses(Fields(cond, 0, AMP)), cs, Fields(cond, v, AMP), cond[v..p], Fields(cond, p + 1, AMP));
    }
  }

  /** The clauses of a first field and the fields after it, in order. */
  lemma {:induction false} Shift(all: seq<Cond>, cs: seq<Cond>, fs: seq<Bytes>, f: Bytes, rest: seq<Bytes>)
    requires all == cs + Clauses(fs) && fs == [f] + rest
    ensures all == cs + Clause(f) + Clauses(rest)
    ensures rest == [] ==> all == cs + Clause(f)
  {
    ClausesCons(f, rest);
    Assoc(cs, Clause(f), Clauses(rest));
    if rest == [] {
      assert cs + Clause(f) + Clauses(rest) == cs + Clause(f);
    }
  }

  lemma Assoc<T>(a: seq<T>, b: seq<T>, c: seq<T>)
    ensures a + (b + c) == a + b + c
  {
  }

  lemma {:induction false} ClausesCons(f: Bytes, rest: seq<Bytes>)
    ensures Clauses([f] + rest) == Clause(f) + Clauses(rest)
  {
    assert ([f] + rest)[0] == f && ([f] + rest)[1..] == rest;
  }

  /** How the limit of 16 cuts the clauses found so far and those after. */
  lemma {:induction false} Limit(cond: Bytes, cs: seq<Cond>, more: seq<Cond>)
    requires Clauses(Fields(cond, 0, AMP)) == cs + more
    requires |cs| <= 16 && (|cs| < 16 ==> more == [])
    ensures Conds(cond) == cs
  {
    if |cs| < 16 {
      assert cs + more == cs;
    } else {
      assert (cs + more)[..16] == cs;
    }
  }

  /** One segment of parse_path applied to node n (the text between two
      `/`, copied into `tmp` and cut at its first `?` or `:` in the C). */
  method Segment(d: Doc, n: nat, seg: Bytes, create: bool) returns (r: Ref)
    requires d.Valid() && AllNamed(d.H()) && n < |d.nodes|
    modifies d
    ensures d.Valid() && Res(d.H(), r) == SegStep(old(d.H()), n, seg, create)
    ensures d.root == old(d.root) && d.cur == old(d.cur) && d.version == old(d.version) && d.flag == old(d.flag)
  {
    if |seg| == 0 || |seg| >= 256 {
      return At(n);
    }
    ghost var h := d.H();
    var q := IndexOf(seg, QMARK);
    if q < |seg| {
      var cond := Some(seg[q + 1..]);
      assert NodeOk(d.H(), n);
      var par := d.nodes[n].parent;
      if q > 0 {
        r := GetChildNode(d, n, seg[..q], cond, create);
      } else if par.At? {
        r := GetChildNode(d, par.i, CStr(d.nodes[n].name.value), cond, create);
      } else {
        r := At(n);
      }
    } else {
      var c := IndexOf(seg, COLON);
      if c < |seg| {
        r := At(n);
        if c > 0 {
          BeforeColon(seg, c);
          PlainStep(h, n, seg[..c], create);
          r := GetChildNode(d, n, seg[..c], None, create);
        }
        if r.At? {
          r := GetAttrNode(d, r.i, seg[c + 1..], create);
        }
      } else {
        r := GetChildNode(d, n, seg, None, create);
      }
    }
  }

  /** parse_path: the start node is node_root after a leading `/` and
      node_cur otherwise; the segments are applied in turn until the text
      ends or a lookup fails. */
  method ParsePath(d: Doc, path: Bytes, create: bool) returns (r: Ref)
    requires d.Valid() && AllNamed(d.H())
    modifies d
    ensures d.Valid() && Res(d.H(), r) == Resolve(old(d.H()), old(d.root), old(d.cur), path, create)
    ensures d.root == old(d.root) && d.cur == old(d.cur) && d.version == old(d.version) && d.flag == old(d.flag)
  {
    var s := CStr(path);
    var rest := s;
    r := d.cur;
    if |s| > 0 && s[0] == SLASH {
      r := d.root;
      rest := s[1..];
    }
    r := WalkFrom(d, r, rest, create);
  }

  /** parse_path's loop: the segments of `rest` applied in turn from r0,
      until the text ends or a lookup fails. */
  method WalkFrom(d: Doc, r0: Ref, rest: Bytes, create: bool) returns (r: Ref)
    requires d.Valid() && AllNamed(d.H()) && InRange(r0, |d.nodes|)
    modifies d
    ensures d.Valid() && Res(d.H(), r) == Walk(old(d.H()), r0, Fields(rest, 0, SLASH), create)
    ensures d.root == old(d.root) && d.cur == old(d.cur) && d.version == old(d.version) && d.flag == old(d.flag)
  {
    r := r0;
    ghost var goal := Walk(d.H(), r0, Fields(rest, 0, SLASH), create);
    var v := 0;
    while true
      invariant v <= |rest| && d.Valid() && AllNamed(d.H()) && InRange(r, |d.nodes|)
      invariant Walk(d.H(), r, Fields(rest, v, SLASH), create) == goal
      invariant d.root == old(d.root) && d.cur == old(d.cur) && d.version == old(d.version) && d.flag == old(d.flag)
      decreases |rest| - v
    {
      if r.Null? {
        return;
      }
      var p;
      r, p := NextSegment(d, r.i, rest, v, create);
      if p == |rest| {
        return;
      }
      v := p + 1;
    }
  }

  /** One turn of parse_path's loop: the segment from v up to the next `/`
      (or the end) is applied to node n. */
  method NextSegment(d: Doc, n: nat, rest: Bytes, v: nat, create: bool) returns (r: Ref, p: nat)
    requires d.Valid() && AllNamed(d.H()) && n < |d.nodes| && v <= |rest|
    modifies d
    ensures d.Valid() && AllNamed(d.H()) && InRange(r, |d.nodes|)
    ensures p == NextSep(rest, v, SLASH)
    ensures p == |rest| ==> Res(d.H(), r) == Walk(old(d.H()), At(n), Fields(rest, v, SLASH), create)
    ensures p < |rest| ==>
      Walk(d.H(), r, Fields(rest, p + 1, SLASH), create) == Walk(old(d.H()), At(n), Fields(rest, v, SLASH), create)
    ensures d.root == old(d.root) && d.cur == old(d.cur) && d.version == old(d.version) && d.flag == old(d.flag)
  {
    ghost var h := d.H();
    p := Scan(rest, v, SLASH);
    WalkNext(h, n, rest, v, create);
    r := Segment(d, n, rest[v..p], create);
  }

  /** Walking the fields of the text from v on: the first field's step, then
      the rest. */
  lemma {:induction false} WalkNext(h: Heap, n: nat, s: Bytes, v: nat, create: bool)
    requires Ranked(h) && AllNamed(h) && n < |h.nodes| && v <= |s|
    ensures var p := NextSep(s, v, SLASH);
      var x := SegStep(h, n, s[v..p], create);
      && (p == |s| ==> Walk(h, At(n), Fields(s, v, SLASH), create) == Res(x.h, x.r))
      && (p < |s| ==> Walk(h, At(n), Fields(s, v, SLASH), create) == Walk(x.h, x.r, Fields(s, p + 1, SLASH), create))
  {
    var p := NextSep(s, v, SLASH);
    var seg := s[v..p];
    FieldsNext(s, v, SLASH);
    if p < |s| {
      var more := Fields(s, p + 1, SLASH);
      assert ([seg] + more)[0] == seg && ([seg] + more)[1..] == more;
    }
  }
}
