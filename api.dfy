/** The document API (bxml.c:330-351, 711-827): loading a document from a
    text or binary image, and the calls that move the cursor, read and write
    values and add nodes.  Each call is proved to act exactly as the path
    resolution, decoding and splice functions of the other modules say. */
module Api {
  import opened Base
  import opened Store
  import opened TextParser
  import opened BinCodec
  import opened BinDecode
  import opened PathResolver

  // ---------------------------------------------------------------------
  // Loading.

  /** The arena of a zeroed BXML_DATA. */
  function Empty(): Heap {
    Heap([], [], [])
  }

  /** bxml_parse's test of the first 32-bit word against BXML_MAGIC. */
  predicate IsBinary(mem: Bytes) {
    |mem| >= 4 && UnLE(mem[..4]) == Magic
  }

  /** bxml_parse: a binary image (header, then the root record) is decoded
      with the header's version and flag; anything else is read as text up
      to its terminating NUL.  The cursor ends on the root.  `ok` is false
      exactly when the text parser would dereference NULL or read past the
      terminator. */
  method BxmlParse(mem: Bytes) returns (d: Doc, ok: bool)
    requires IsBinary(mem) ==> |mem| >= HeaderSize && DecodeRecord(mem, HeaderSize).Decoded?
    requires !IsBinary(mem) ==> IndexOf(mem, NUL) < |mem|
    ensures fresh(d) && d.Valid() && d.cur == d.root
    ensures IsBinary(mem) ==>
      && ok
      && d.version == UnLE(mem[4..6]) && d.flag == UnLE(mem[6..8])
      && d.H() == Graft(Empty(), Null, ChildLink, DecodeRecord(mem, HeaderSize).tree)
    ensures !IsBinary(mem) ==>
      var r := Parse(CStr(mem));
      && d.version == 0 && d.flag == 0
      && (ok <==> r.Go?)
      && (ok ==> d.H() == r.c.h)
  {
    d := new Doc();
    assert d.H() == Empty();
    if |mem| >= 4 && UnLE(mem[..4]) == Magic {
      d.version := UnLE(mem[4..6]);
      d.flag := UnLE(mem[6..8]);
      var _ := ParseBxmlNode(d, mem, HeaderSize, ChildLink);
      ok := true;
    } else {
      ok := ParseXmlNode(d, CStr(mem));
    }
    d.cur := d.root;
  }

  /** What bxml_build writes and bxml_parse reads back: the image of a
      document is recognised as binary, its header fields come back (they are
      16-bit), and the decoded arena holds the canonical tree with attributes
      and children listed backwards at every level.  The padding after the
      record is never looked at. */
  lemma BinaryRoundTrip(version: nat, flag: nat, t: Tree, pad: nat)
    requires version < 0x1_0000 && flag < 0x1_0000 && Encodable(t)
    ensures var mem := BinCodec.Header(version, flag) + Encode(t) + Zeros(pad);
      && IsBinary(mem)
      && |mem| >= HeaderSize
      && DecodeRecord(mem, HeaderSize) == Decoded(Canon(t), HeaderSize + |Encode(t)|)
      && UnLE(mem[4..6]) == version && UnLE(mem[6..8]) == flag
      && TreeAt(Graft(Empty(), Null, ChildLink, Canon(t)), 0) == Mirror(Canon(t))
  {
    var mem := BinCodec.Header(version, flag) + Encode(t) + Zeros(pad);
    assert Pow256(2) == 0x1_0000 && Pow256(4) == 0x1_0000_0000;
    assert mem[..4] == LE(Magic, 4);
    assert mem[4..6] == LE(version, 2);
    assert mem[6..8] == LE(flag, 2);
    UnLEOfLE(Magic, 4);
    UnLEOfLE(version, 2);
    UnLEOfLE(flag, 2);
    assert mem[HeaderSize..HeaderSize + |Encode(t)|] == Encode(t);
    DecodeEncode(t, mem, HeaderSize);
    GraftFacts(Empty(), Null, ChildLink, Canon(t));
  }

  // ---------------------------------------------------------------------
  // Cursor.

  /** bxml_redirect: on success the cursor moves to the node the path names
      (creating it if asked) and 1 is returned; otherwise 0 and the cursor
      stays. */
  method Redirect(d: Doc, path: Bytes, create: bool) returns (ret: int)
    requires d.Valid() && AllNamed(d.H())
    modifies d
    ensures d.Valid() && AllNamed(d.H())
    ensures var x := Resolve(old(d.H()), old(d.root), old(d.cur), path, create);
      && d.H() == x.h
      && (ret == 1 || ret == 0)
      && (ret == 1 <==> x.r.At?)
      && d.cur == (if x.r.At? then x.r else old(d.cur))
    ensures d.root == old(d.root) && d.version == old(d.version) && d.flag == old(d.flag)
  {
    var r := ParsePath(d, path, create);
    if r.At? {
      d.cur := r;
      ret := 1;
    } else {
      ret := 0;
    }
  }

  /** Where k calls of bxml_movenext leave a cursor at r. */
  ghost function Moved(h: Heap, r: Ref, k: nat): (m: Ref)
    requires Ranked(h) && InRange(r, |h.nodes|)
    ensures InRange(m, |h.nodes|)
    decreases k
  {
    if k == 0 || r.Null? then r
    else
      assert NodeOk(h, r.i);
      if h.nodes[r.i].next.Null? then r else Moved(h, h.nodes[r.i].next, k - 1)
  }

  /** bxml_movenext: the cursor moves to the next node of its chain and 1 is
      returned; at the chain's end (or with no cursor) 0 is returned and the
      cursor stays. */
  method MoveNext(d: Doc) returns (ret: int)
    requires d.Valid()
    modifies d
    ensures d.Valid() && d.H() == old(d.H())
    ensures d.cur == Moved(old(d.H()), old(d.cur), 1)
    ensures old(d.cur).Null? ==> ret == 0
    ensures old(d.cur).At? ==>
      var c := Chain(old(d.H()), old(d.cur));
      (ret == 1 <==> |c| > 1) && (ret == 0 <==> |c| == 1) && (|c| > 1 ==> d.cur == At(c[1]))
    ensures d.root == old(d.root) && d.version == old(d.version) && d.flag == old(d.flag)
  {
    ghost var h := d.H();
    var n := d.cur;
    if n.At? {
      assert NodeOk(h, n.i);
      n := d.nodes[n.i].next;
    }
    if n.At? {
      d.cur := n;
      ret := 1;
    } else {
      ret := 0;
    }
  }

  /** Calling bxml_movenext k times from a node visits its chain in order and
      stops on the chain's last node. */
  lemma {:induction false} MovedAlongChain(h: Heap, i: nat, k: nat)
    requires Ranked(h) && i < |h.nodes|
    ensures var c := Chain(h, At(i));
      Moved(h, At(i), k) == At(c[if k < |c| then k else |c| - 1])
    decreases k
  {
    assert NodeOk(h, i);
    var nx := h.nodes[i].next;
    if k > 0 && nx.At? {
      MovedAlongChain(h, nx.i, k - 1);
      assert Chain(h, At(i)) == [i] + Chain(h, nx);
    }
  }

  // ---------------------------------------------------------------------
  // Reading.

  /** The node a path names without creating anything, if any. */
  ghost function Target(h: Heap, root: Ref, cur: Ref, path: Bytes): (t: Option<Node>)
    requires Ranked(h) && AllNamed(h) && InRange(root, |h.nodes|) && InRange(cur, |h.nodes|)
    ensures t.Some? ==> t.value in h.nodes
  {
    var x := Resolve(h, root, cur, path, false);
    if x.r.At? then Some(h.nodes[x.r.i]) else None
  }

  /** The stored value of the node a path names, if both exist. */
  ghost function ValueAt(h: Heap, root: Ref, cur: Ref, path: Bytes): Option<Bytes>
    requires Ranked(h) && AllNamed(h) && InRange(root, |h.nodes|) && InRange(cur, |h.nodes|)
  {
    var t := Target(h, root, cur, path);
    if t.Some? then t.value.value else None
  }

  /** bxml_read: copies min(value_len, buf_size) bytes of the named node's
      value to the front of buf and returns that count; -1 when the path
      names nothing or the node has no value.  The document is unchanged. */
  method Read(d: Doc, path: Bytes, buf: array<Byte>, bufSize: nat) returns (ret: int)
    requires d.Valid() && AllNamed(d.H()) && bufSize <= buf.Length
    modifies d, buf
    ensures d.Valid() && d.H() == old(d.H()) && d.cur == old(d.cur)
    ensures d.root == old(d.root) && d.version == old(d.version) && d.flag == old(d.flag)
    ensures var v := ValueAt(old(d.H()), old(d.root), old(d.cur), path);
      if v.Some? then
        && ret == (if |v.value| < bufSize then |v.value| else bufSize)
        && buf[..ret] == v.value[..ret]
        && buf[ret..] == old(buf[ret..])
      else
        ret == -1 && buf[..] == old(buf[..])
  {
    var r := ParsePath(d, path, false);
    if r.At? && d.nodes[r.i].value.Some? {
      var v := d.nodes[r.i].value.value;
      ret := if |v| < bufSize then |v| else bufSize;
      var i := 0;
      while i < ret
        modifies buf
        invariant 0 <= i <= ret
        invariant forall j :: 0 <= j < i ==> buf[j] == v[j]
        invariant forall j :: i <= j < buf.Length ==> buf[j] == old(buf[j])
      {
        buf[i] := v[i];
        i := i + 1;
      }
      assert buf[..ret] == v[..ret];
      assert buf[ret..] == old(buf[ret..]);
    } else {
      ret := -1;
    }
  }

  /** bxml_readname: the named node's name, None when the path names
      nothing. */
  method ReadName(d: Doc, path: Bytes) returns (name: Option<Bytes>)
    requires d.Valid() && AllNamed(d.H())
    modifies d
    ensures d.Valid() && d.H() == old(d.H()) && d.cur == old(d.cur)
    ensures d.root == old(d.root) && d.version == old(d.version) && d.flag == old(d.flag)
    ensures var t := Target(old(d.H()), old(d.root), old(d.cur), path);
      name == (if t.Some? then t.value.name else None)
    ensures name.Some? <==> Target(old(d.H()), old(d.root), old(d.cur), path).Some?
  {
    var r := ParsePath(d, path, false);
    if r.At? && d.nodes[r.i].name.Some? {
      name := d.nodes[r.i].name;
    } else {
      name := None;
    }
  }

  /** bxml_readstr: the named node's stored value, None when the path names
      nothing or the node has no value. */
  method ReadStr(d: Doc, path: Bytes) returns (value: Option<Bytes>)
    requires d.Valid() && AllNamed(d.H())
    modifies d
    ensures d.Valid() && d.H() == old(d.H()) && d.cur == old(d.cur)
    ensures d.root == old(d.root) && d.version == old(d.version) && d.flag == old(d.flag)
    ensures value == ValueAt(old(d.H()), old(d.root), old(d.cur), path)
  {
    var r := ParsePath(d, path, false);
    if r.At? && d.nodes[r.i].value.Some? {
      value := d.nodes[r.i].value;
    } else {
      value := None;
    }
  }

  // ---------------------------------------------------------------------
  // Writing.

  /** The arena after resolving `path` with creation and storing `value` in
      the node it names (nothing is stored when it names nothing). */
  ghost function Stored(h: Heap, root: Ref, cur: Ref, path: Bytes, value: Bytes): (h': Heap)
    requires Ranked(h) && AllNamed(h) && InRange(root, |h.nodes|) && InRange(cur, |h.nodes|)
    ensures Ranked(h') && AllNamed(h')
  {
    var x := Resolve(h, root, cur, path, true);
    if x.r.At? then PutValue(x.h, x.r.i, value) else x.h
  }

  /** What storing leaves: the named node (created if it was missing) holds
      exactly the new value, with `value_len` its length; every other node
      keeps what resolution left it. */
  lemma StoredFacts(h: Heap, root: Ref, cur: Ref, path: Bytes, value: Bytes)
    requires Ranked(h) && AllNamed(h) && InRange(root, |h.nodes|) && InRange(cur, |h.nodes|)
    requires StartOf(CStr(path), root, cur).0.At?
    ensures var x := Resolve(h, root, cur, path, true);
      var h' := Stored(h, root, cur, path, value);
      && x.r.At?
      && h'.nodes[x.r.i].value == Some(value)
      && ValueLen(h'.nodes[x.r.i]) == |value|
      && h'.nodes[x.r.i].name == x.h.nodes[x.r.i].name
      && (forall j :: 0 <= j < |x.h.nodes| && j != x.r.i ==> h'.nodes[j] == x.h.nodes[j])
  {
    var (start, rest) := StartOf(CStr(path), root, cur);
    assert Resolve(h, root, cur, path, true) == Walk(h, start, PathResolver.Fields(rest, 0, SLASH), true);
  }

  /** bxml_write: the path is resolved with creation and the node's value is
      replaced by the buf_size bytes given (no terminator is added). */
  method Write(d: Doc, path: Bytes, data: Bytes)
    requires d.Valid() && AllNamed(d.H())
    modifies d
    ensures d.Valid() && d.H() == Stored(old(d.H()), old(d.root), old(d.cur), path, data)
    ensures d.root == old(d.root) && d.cur == old(d.cur)
    ensures d.version == old(d.version) && d.flag == old(d.flag)
  {
    var r := ParsePath(d, path, true);
    if r.At? {
      d.SetValue(r.i, data);
    }
  }

  /** bxml_writestr: as bxml_write with the string's bytes up to its
      terminator (strlen / strcpy). */
  method WriteStr(d: Doc, path: Bytes, str: Bytes)
    requires d.Valid() && AllNamed(d.H())
    modifies d
    ensures d.Valid() && d.H() == Stored(old(d.H()), old(d.root), old(d.cur), path, CStr(str))
    ensures d.root == old(d.root) && d.cur == old(d.cur)
    ensures d.version == old(d.version) && d.flag == old(d.flag)
  {
    Write(d, path, CStr(str));
  }

  // ---------------------------------------------------------------------
  // Adding nodes.

  /** bxml_mknode: -1 without a cursor; otherwise a node named by the string
      (up to its terminator) is created right after the cursor with the
      cursor's parent, the cursor moves to it and 1 is returned. */
  method MkNode(d: Doc, name: Bytes) returns (ret: int)
    requires d.Valid()
    modifies d
    ensures d.Valid() && d.root == old(d.root) && d.version == old(d.version) && d.flag == old(d.flag)
    ensures old(d.cur).Null? ==> ret == -1 && d.H() == old(d.H()) && d.cur == Null
    ensures old(d.cur).At? ==>
      && ret == 1
      && d.cur == At(|old(d.nodes)|)
      && d.H() == PutName(AddNext(old(d.H()), old(d.cur)), |old(d.nodes)|, CStr(name))
  {
    if d.cur.Null? {
      return -1;
    }
    var n := d.CreateNext(d.cur);
    d.SetName(n, CStr(name));
    d.cur := At(n);
    ret := 1;
  }

  /** What bxml_mknode leaves, seen from any chain through the cursor c: the
      chain now ends c, n -- the new node, named, with c's parent -- because
      create_nextnode never links the old successor after n.  Every name is
      still present. */
  lemma {:induction false} MkNodeChain(h: Heap, c: nat, name: Bytes, x: Ref, k: nat)
    requires Ranked(h) && AllNamed(h) && c < |h.nodes| && InRange(x, |h.nodes|)
    requires k < |Chain(h, x)| && Chain(h, x)[k] == c
    ensures var n := |h.nodes|;
      var h' := PutName(AddNext(h, At(c)), n, CStr(name));
      && AllNamed(h')
      && h'.nodes[n] == Node(Some(CStr(name)), None, h.nodes[c].parent, Null, Null, Null, At(c))
      && Chain(h', x) == Chain(h, x)[..k + 1] + [n]
  {
    var n := |h.nodes|;
    var h1 := AddNext(h, At(c));
    var h' := PutName(h1, n, CStr(name));
    AddNextCutsChain(h, c, x, k);
    assert forall j :: 0 <= j < |h1.nodes| ==> h'.nodes[j].next == h1.nodes[j].next by {
      forall j | 0 <= j < |h1.nodes| ensures h'.nodes[j].next == h1.nodes[j].next {
        if j == n {
          assert Shape(h'.nodes[j]) == Shape(h1.nodes[j].(name := Some(CStr(name))));
        }
      }
    }
    ChainFrame(h1, h', x);
  }
}
