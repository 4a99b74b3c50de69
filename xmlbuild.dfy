/** The text serializer of bxml.c (build_xml_node, bxml_buildxml).

    The C walks the tree once, keeping a running capacity `len`: before each
    piece of output it subtracts the piece's length from `len`, and it
    appends the piece (strcat into the caller's buffer) only when what is
    left is still positive.  The model names the pieces: `Render` lists the
    chunks of a subtree in output order, each with the amount the C
    subtracts for it and the bytes it appends, and `Emit` is the running
    rule.  The imperative methods write into an array and are proved to
    leave exactly what `Emit` of `Render` describes; the lemmas say what
    that is (a prefix of the whole rendering that never fills the buffer,
    and a return value that is the whole rendering's length). */
module TextBuilder {
  import opened Base
  import opened Store

  // ---------------------------------------------------------------------
  // Chunks and the running-capacity rule.

  /** A piece of output: what is subtracted from the capacity for it, and
      the bytes appended when the capacity left after that is positive. */
  datatype Chunk = Chunk(cost: nat, text: Bytes)

  function Cost(cs: seq<Chunk>): nat {
    if |cs| == 0 then 0 else cs[0].cost + Cost(cs[1..])
  }

  /** The whole rendering: every chunk's text, in order. */
  function Text(cs: seq<Chunk>): Bytes {
    if |cs| == 0 then [] else cs[0].text + Text(cs[1..])
  }

  /** What was appended, and the capacity left. */
  datatype Emitted = Emitted(out: Bytes, left: int)

  /** The C's rule, chunk by chunk: `len -= cost; if (len > 0) strcat(...)`. */
  function Emit(cs: seq<Chunk>, len: int): Emitted {
    if |cs| == 0 then Emitted([], len)
    else
      var l := len - cs[0].cost;
      var e := Emit(cs[1..], l);
      Emitted((if l > 0 then cs[0].text else []) + e.out, e.left)
  }

  /** No chunk appends more bytes than it is charged for. */
  ghost predicate Honest(cs: seq<Chunk>) {
    forall i :: 0 <= i < |cs| ==> |cs[i].text| <= cs[i].cost
  }

  /** Every chunk appends exactly what it is charged for. */
  ghost predicate Exact(cs: seq<Chunk>) {
    forall i :: 0 <= i < |cs| ==> |cs[i].text| == cs[i].cost
  }

  // ---------------------------------------------------------------------
  // The chunks of a subtree.

  /** What strlen sees of a name or value buffer (a NULL one shows as empty;
      the methods below never meet one where the C would dereference it). */
  function Str(o: Option<Bytes>): Bytes {
    if o.Some? then CStr(o.value) else []
  }

  /** `value_len` of a tree's value. */
  function VLen(o: Option<Bytes>): nat {
    if o.Some? then |o.value| else 0
  }

  function Tabs(n: nat): (r: Bytes)
    ensures |r| == n
  {
    seq(n, _ => TAB)
  }

  /** ` name="value"`, charged strlen(name) + value_len + 4. */
  function AttrChunk(a: Tree): Chunk {
    Chunk(|Str(a.name)| + VLen(a.value) + 4, [SPACE] + Str(a.name) + [EQUALS, QUOTE] + Str(a.value) + [QUOTE])
  }

  function AttrChunks(attrs: seq<Tree>): seq<Chunk> {
    if |attrs| == 0 then [] else [AttrChunk(attrs[0])] + AttrChunks(attrs[1..])
  }

  /** The opening `<name`, indented by the nesting level. */
  function OpenChunk(t: Tree, level: nat): Chunk {
    Chunk(|Str(t.name)| + 1 + level, Tabs(level) + [LT] + Str(t.name))
  }

  /** The output for one node and its subtree (its own `node_next` is not
      followed). */
  function Render(t: Tree, level: nat): seq<Chunk>
    decreases t, 2
  {
    [OpenChunk(t, level)] + AttrChunks(t.attrs) + Body(t, level)
  }

  /** What follows the attributes: the children between `>\n` and an
      indented `</name>\n`; else, when the node has no attributes or a
      non-empty value, `>`, the value and `</name>\n`; else ` />\n`. */
  function Body(t: Tree, level: nat): seq<Chunk>
    decreases t, 1
  {
    var nm := Str(t.name);
    if |t.kids| > 0 then
      [Chunk(2, [GT, LF])] + RenderList(t.kids, level + 1)
      + [Chunk(|nm| + 4 + level, Tabs(level) + [LT, SLASH] + nm + [GT, LF])]
    else if |t.attrs| == 0 || VLen(t.value) > 0 then
      [Chunk(1, [GT]), Chunk(VLen(t.value), Str(t.value)), Chunk(|nm| + 4, [LT, SLASH] + nm + [GT, LF])]
    else
      [Chunk(4, [SPACE, SLASH, GT, LF])]
  }

  /** A chain of siblings, each at the same level. */
  function RenderList(ts: seq<Tree>, level: nat): seq<Chunk>
    decreases ts, 0
  {
    if |ts| == 0 then [] else Render(ts[0], level) + RenderList(ts[1..], level)
  }

  /** The trees the serializer can print without dereferencing NULL: every
      node has a name, and every attribute a name and a value. */
  predicate Printable(t: Tree)
    decreases t, 1
  {
    t.name.Some? && AttrsPrintable(t.attrs) && PrintableList(t.kids)
  }

  predicate PrintableList(ts: seq<Tree>)
    decreases ts, 0
  {
    forall i :: 0 <= i < |ts| ==> Printable(ts[i])
  }

  predicate AttrsPrintable(attrs: seq<Tree>) {
    forall i :: 0 <= i < |attrs| ==> attrs[i].name.Some? && attrs[i].value.Some?
  }

  /** Values the C can print in full: no NUL inside, so strlen(value) is
      value_len. */
  predicate ValuesClean(t: Tree)
    decreases t, 1
  {
    && (t.value.Some? ==> NoNul(t.value.value))
    && (forall i :: 0 <= i < |t.attrs| ==> t.attrs[i].value.Some? ==> NoNul(t.attrs[i].value.value))
    && ValuesCleanList(t.kids)
  }

  predicate ValuesCleanList(ts: seq<Tree>)
    decreases ts, 0
  {
    forall i :: 0 <= i < |ts| ==> ValuesClean(ts[i])
  }

  // ---------------------------------------------------------------------
  // Properties of the rule.

  lemma {:induction false} CostAppend(a: seq<Chunk>, b: seq<Chunk>)
    ensures Cost(a + b) == Cost(a) + Cost(b)
    ensures Text(a + b) == Text(a) + Text(b)
    decreases |a|
  {
    if |a| > 0 {
      assert (a + b)[1..] == a[1..] + b;
      CostAppend(a[1..], b);
    } else {
      assert a + b == b;
    }
  }

  /** Emitting two runs one after the other is emitting their concatenation. */
  lemma {:induction false} EmitAppend(a: seq<Chunk>, b: seq<Chunk>, len: int)
    ensures var ea := Emit(a, len); var eb := Emit(b, ea.left);
      Emit(a + b, len) == Emitted(ea.out + eb.out, eb.left)
    decreases |a|
  {
    if |a| == 0 {
      assert a + b == b;
    } else {
      assert (a + b)[0] == a[0] && (a + b)[1..] == a[1..] + b;
      EmitAppend(a[1..], b, len - a[0].cost);
    }
  }

  /** The capacity left is the capacity given minus the cost of every chunk,
      written or not: bxml_buildxml's return value does not depend on the
      buffer. */
  lemma {:induction false} EmitLeft(cs: seq<Chunk>, len: int)
    ensures Emit(cs, len).left == len - Cost(cs)
    decreases |cs|
  {
    if |cs| > 0 {
      EmitLeft(cs[1..], len - cs[0].cost);
    }
  }

  /** Once the capacity is used up nothing more is appended. */
  lemma {:induction false} EmitNothing(cs: seq<Chunk>, len: int)
    requires len <= 0
    ensures Emit(cs, len).out == []
    decreases |cs|
  {
    if |cs| > 0 {
      EmitNothing(cs[1..], len - cs[0].cost);
    }
  }

  /** What is appended is a prefix of the whole rendering. */
  lemma {:induction false} EmitPrefix(cs: seq<Chunk>, len: int)
    ensures Emit(cs, len).out <= Text(cs)
    decreases |cs|
  {
    if |cs| > 0 {
      var l := len - cs[0].cost;
      if l > 0 {
        EmitPrefix(cs[1..], l);
      } else {
        EmitNothing(cs[1..], l);
      }
    }
  }

  /** With honest chunks the output stays below the capacity, so the
      terminating NUL always fits; nothing is written into no room. */
  lemma {:induction false} EmitBound(cs: seq<Chunk>, len: int)
    requires Honest(cs)
    ensures var e := Emit(cs, len);
      && |e.out| + e.left <= len
      && (len > 0 ==> |e.out| < len)
      && (len <= 0 ==> e.out == [])
    decreases |cs|
  {
    if |cs| > 0 {
      var l := len - cs[0].cost;
      assert Honest(cs[1..]) by {
        forall i | 0 <= i < |cs[1..]| ensures |cs[1..][i].text| <= cs[1..][i].cost {
          assert cs[1..][i] == cs[i + 1];
        }
      }
      assert |cs[0].text| <= cs[0].cost;
      EmitBound(cs[1..], l);
      if len <= 0 {
        EmitNothing(cs, len);
      }
    }
  }

  /** When everything fits with room to spare, the whole rendering is written. */
  lemma {:induction false} EmitAll(cs: seq<Chunk>, len: int)
    requires Cost(cs) < len
    ensures Emit(cs, len).out == Text(cs)
    decreases |cs|
  {
    if |cs| > 0 {
      EmitAll(cs[1..], len - cs[0].cost);
    }
  }

  // ---------------------------------------------------------------------
  // Properties of the rendering.

  lemma HonestAppend(a: seq<Chunk>, b: seq<Chunk>)
    requires Honest(a) && Honest(b)
    ensures Honest(a + b)
  {
    forall i | 0 <= i < |a + b| ensures |(a + b)[i].text| <= (a + b)[i].cost {
      if i < |a| {
        assert (a + b)[i] == a[i];
      } else {
        assert (a + b)[i] == b[i - |a|];
      }
    }
  }

  lemma ExactAppend(a: seq<Chunk>, b: seq<Chunk>)
    requires Exact(a) && Exact(b)
    ensures Exact(a + b)
  {
    forall i | 0 <= i < |a + b| ensures |(a + b)[i].text| == (a + b)[i].cost {
      if i < |a| {
        assert (a + b)[i] == a[i];
      } else {
        assert (a + b)[i] == b[i - |a|];
      }
    }
  }

  lemma {:induction false} AttrChunksHonest(attrs: seq<Tree>)
    ensures Honest(AttrChunks(attrs))
    ensures (forall i :: 0 <= i < |attrs| ==> attrs[i].value.Some? ==> NoNul(attrs[i].value.value))
      ==> Exact(AttrChunks(attrs))
    decreases |attrs|
  {
    if |attrs| > 0 {
      var a := attrs[0];
      AttrChunksHonest(attrs[1..]);
      if a.value.Some? && NoNul(a.value.value) {
        CStrOfClean(a.value.value);
      }
      HonestAppend([AttrChunk(a)], AttrChunks(attrs[1..]));
      if forall i :: 0 <= i < |attrs| ==> attrs[i].value.Some? ==> NoNul(attrs[i].value.value) {
        assert forall i :: 0 <= i < |attrs[1..]| ==> attrs[1..][i] == attrs[i + 1];
        ExactAppend([AttrChunk(a)], AttrChunks(attrs[1..]));
      }
    }
  }

  /** Every chunk of a rendering is honest (strlen of a value never exceeds
      value_len), and exact when the values hold no NUL. */
  lemma {:induction false} RenderHonest(t: Tree, level: nat)
    ensures Honest(Render(t, level))
    ensures ValuesClean(t) ==> Exact(Render(t, level))
    decreases t, 1
  {
    AttrChunksHonest(t.attrs);
    var nm := Str(t.name);
    var b := Body(t, level);
    if |t.kids| > 0 {
      RenderListHonest(t.kids, level + 1);
      var x := [Chunk(2, [GT, LF])];
      var y := RenderList(t.kids, level + 1);
      var z := [Chunk(|nm| + 4 + level, Tabs(level) + [LT, SLASH] + nm + [GT, LF])];
      assert b == x + y + z;
      HonestAppend(x, y);
      HonestAppend(x + y, z);
      if ValuesClean(t) {
        ExactAppend(x, y);
        ExactAppend(x + y, z);
      }
    } else if t.value.Some? && NoNul(t.value.value) {
      CStrOfClean(t.value.value);
    }
    var o := [OpenChunk(t, level)] + AttrChunks(t.attrs);
    HonestAppend([OpenChunk(t, level)], AttrChunks(t.attrs));
    HonestAppend(o, b);
    if ValuesClean(t) {
      ExactAppend([OpenChunk(t, level)], AttrChunks(t.attrs));
      ExactAppend(o, b);
    }
  }

  lemma {:induction false} RenderListHonest(ts: seq<Tree>, level: nat)
    ensures Honest(RenderList(ts, level))
    ensures ValuesCleanList(ts) ==> Exact(RenderList(ts, level))
    decreases ts, 0
  {
    if |ts| > 0 {
      RenderHonest(ts[0], level);
      RenderListHonest(ts[1..], level);
      HonestAppend(Render(ts[0], level), RenderList(ts[1..], level));
      if ValuesCleanList(ts) {
        assert ValuesClean(ts[0]);
        assert ValuesCleanList(ts[1..]) by {
          forall i | 0 <= i < |ts[1..]| ensures ValuesClean(ts[1..][i]) {
            assert ts[1..][i] == ts[i + 1];
          }
        }
        ExactAppend(Render(ts[0], level), RenderList(ts[1..], level));
      }
    }
  }

  lemma {:induction false} ExactText(cs: seq<Chunk>)
    requires Exact(cs)
    ensures |Text(cs)| == Cost(cs)
    decreases |cs|
  {
    if |cs| > 0 {
      assert Exact(cs[1..]) by {
        forall i | 0 <= i < |cs[1..]| ensures |cs[1..][i].text| == cs[1..][i].cost {
          assert cs[1..][i] == cs[i + 1];
        }
      }
      assert |cs[0].text| == cs[0].cost;
      ExactText(cs[1..]);
    }
  }

  /** A node with neither attributes, children nor value is written as an
      opening and a closing tag, not as a self-closing one. */
  lemma BareNode(t: Tree, level: nat)
    requires |t.attrs| == 0 && |t.kids| == 0 && VLen(t.value) == 0
    ensures Text(Render(t, level))
      == Tabs(level) + [LT] + Str(t.name) + [GT] + [LT, SLASH] + Str(t.name) + [GT, LF]
  {
    var nm := Str(t.name);
    var v := Str(t.value);
    assert |v| == 0 by {
      if t.value.Some? {
        assert |t.value.value| == 0;
      }
    }
    var cs := [OpenChunk(t, level), Chunk(1, [GT]), Chunk(0, v), Chunk(|nm| + 4, [LT, SLASH] + nm + [GT, LF])];
    assert AttrChunks(t.attrs) == [];
    assert Render(t, level) == cs;
    assert Text(cs[3..]) == cs[3].text by { assert cs[3..][1..] == []; }
    assert Text(cs[2..]) == cs[2].text + cs[3].text by { assert cs[2..][1..] == cs[3..]; }
    assert Text(cs[1..]) == cs[1].text + cs[2].text + cs[3].text by { assert cs[1..][1..] == cs[2..]; }
  }

  /** A childless node with attributes and no value is the one written in
      the short form `<name a="v" />`. */
  lemma ShortTag(t: Tree, level: nat)
    requires |t.kids| == 0 && |t.attrs| > 0 && VLen(t.value) == 0
    ensures Body(t, level) == [Chunk(4, [SPACE, SLASH, GT, LF])]
    ensures Text(Render(t, level)) == Tabs(level) + [LT] + Str(t.name) + Text(AttrChunks(t.attrs)) + [SPACE, SLASH, GT, LF]
  {
    var a := AttrChunks(t.attrs);
    var sh := [Chunk(4, [SPACE, SLASH, GT, LF])];
    assert Render(t, level) == [OpenChunk(t, level)] + a + sh;
    CostAppend([OpenChunk(t, level)], a);
    CostAppend([OpenChunk(t, level)] + a, sh);
    assert Text([OpenChunk(t, level)]) == OpenChunk(t, level).text;
    assert Text(sh) == [SPACE, SLASH, GT, LF];
  }

  // ---------------------------------------------------------------------
  // The buffer.

  /** The bytes from p on are zero (the caller cleared the buffer). */
  ghost predicate ZeroFrom(m: Bytes, p: nat) {
    p <= |m| && m[p..] == Zeros(|m| - p)
  }

  /** There is room for what the capacity allows, terminator included. */
  predicate Room(pos: int, len: int, size: int) {
    0 <= pos <= size && (len > 0 ==> pos + len <= size)
  }

  /** The buffer m, starting from m0 with the end of the string at p0 and
      capacity len0, after the chunks cs: the old bytes up to p0, then what
      `Emit` appends, then zeros; the string now ends at pos and the
      capacity is len. */
  ghost predicate Progress(m: Bytes, m0: Bytes, p0: nat, cs: seq<Chunk>, len0: int, pos: int, len: int) {
    var e := Emit(cs, len0);
    && |m| == |m0| && p0 <= |m0| && len == e.left && pos == p0 + |e.out| && pos <= |m|
    && m == m0[..p0] + e.out + Zeros(|m| - pos)
  }

  lemma Start(m: Bytes, p: nat, len: int)
    requires ZeroFrom(m, p)
    ensures Progress(m, m, p, [], len, p, len)
  {
    assert m == m[..p] + [] + m[p..];
  }

  lemma Extend(m0: Bytes, m1: Bytes, m2: Bytes, p0: nat, cs: seq<Chunk>, xs: seq<Chunk>, len0: int,
               p1: nat, len1: int, p2: int, len2: int)
    requires Progress(m1, m0, p0, cs, len0, p1, len1)
    requires Progress(m2, m1, p1, xs, len1, p2, len2)
    ensures Progress(m2, m0, p0, cs + xs, len0, p2, len2)
  {
    EmitAppend(cs, xs, len0);
    var e := Emit(cs, len0);
    var f := Emit(xs, len1);
    assert m1[..p1] == m0[..p0] + e.out;
    assert m2 == m0[..p0] + (e.out + f.out) + Zeros(|m2| - p2);
  }

  /** `strcat(mem + at, s)` on a string ending at `at`: the bytes of s and
      the terminator. */
  method Cat(mem: array<Byte>, at: nat, s: Bytes)
    requires at + |s| < mem.Length
    modifies mem
    ensures mem[..] == old(mem[..])[..at] + s + [NUL] + old(mem[..])[at + |s| + 1..]
  {
    forall j | 0 <= j < |s| {
      mem[at + j] := s[j];
    }
    mem[at + |s|] := NUL;
  }

  /** One `len -= cost; if (len > 0) strcat(mem, text);` of build_xml_node. */
  method EmitChunk(mem: array<Byte>, pos: nat, len: int, c: Chunk) returns (pos': nat, len': int)
    requires ZeroFrom(mem[..], pos) && Room(pos, len, mem.Length) && |c.text| <= c.cost
    modifies mem
    ensures Progress(mem[..], old(mem[..]), pos, [c], len, pos', len')
    ensures Room(pos', len', mem.Length) && ZeroFrom(mem[..], pos')
  {
    ghost var m0 := mem[..];
    assert Emit([c], len) == Emitted(if len - c.cost > 0 then c.text else [], len - c.cost);
    len' := len - c.cost;
    pos' := pos;
    if len' > 0 {
      Cat(mem, pos, c.text);
      pos' := pos + |c.text|;
      assert m0[pos..][|c.text| + 1..] == m0[pos + |c.text| + 1..];
      assert [NUL] + Zeros(mem.Length - pos' - 1) == Zeros(mem.Length - pos');
    } else {
      assert mem[..] == m0[..pos] + [] + m0[pos..];
    }
  }

  // ---------------------------------------------------------------------
  // build_xml_node.

  /** build_xml_node(node i, level, mem + pos, len): writes node i, its
      subtree and the siblings after it, and returns the capacity left; the
      end of the string is returned too (the C finds it with strlen). */
  method BuildXmlNode(nodes: seq<Node>, ghost h: Heap, i: nat, level: nat, mem: array<Byte>, pos: nat, len: int)
    returns (end: nat, left: int)
    requires Ranked(h) && nodes == h.nodes && i < |nodes| && PrintableList(Forest(h, At(i)))
    requires ZeroFrom(mem[..], pos) && Room(pos, len, mem.Length)
    modifies mem
    ensures Progress(mem[..], old(mem[..]), pos, RenderList(Forest(h, At(i)), level), len, end, left)
    ensures Room(end, left, mem.Length) && ZeroFrom(mem[..], end)
    decreases DM(h, At(i)), PM(h, At(i)), 2
  {
    ghost var m0 := mem[..];
    ghost var F := Forest(h, At(i));
    ghost var t := TreeAt(h, i);
    assert NodeOk(h, i);
    var nod := nodes[i];
    assert F == [t] + Forest(h, nod.next) && F[0] == t;
    assert Printable(t);
    var name := CStr(nod.name.value);
    var p1, l1 := EmitChunk(mem, pos, len, Chunk(|name| + 1 + level, Tabs(level) + [LT] + name));
    ghost var m1 := mem[..];
    var p2, l2 := BuildAttrs(nodes, h, nod.attr, mem, p1, l1);
    ghost var m2 := mem[..];
    Extend(m0, m1, m2, pos, [OpenChunk(t, level)], AttrChunks(t.attrs), len, p1, l1, p2, l2);
    end, left := BuildBody(nodes, h, i, level, mem, p2, l2);
    Extend(m0, m2, mem[..], pos, [OpenChunk(t, level)] + AttrChunks(t.attrs), Body(t, level), len, p2, l2, end, left);
    assert RenderList(F, level) == Render(t, level) + RenderList(Forest(h, nod.next), level);
    if nod.next.At? {
      assert PrintableList(Forest(h, nod.next)) by {
        forall k | 0 <= k < |Forest(h, nod.next)| ensures Printable(Forest(h, nod.next)[k]) {
          assert Forest(h, nod.next)[k] == F[k + 1];
        }
      }
      ghost var m3 := mem[..];
      var p4, l4 := BuildXmlNode(nodes, h, nod.next.i, level, mem, end, left);
      Extend(m0, m3, mem[..], pos, Render(t, level), RenderList(Forest(h, nod.next), level), len, end, left, p4, l4);
      end, left := p4, l4;
    } else {
      assert Render(t, level) + RenderList(Forest(h, nod.next), level) == Render(t, level);
    }
  }

  /** The attribute loop of build_xml_node: ` name="value"` for each
      attribute along the chain from r. */
  method BuildAttrs(nodes: seq<Node>, ghost h: Heap, r: Ref, mem: array<Byte>, pos: nat, len: int)
    returns (end: nat, left: int)
    requires Ranked(h) && nodes == h.nodes && InRange(r, |nodes|) && AttrsPrintable(Forest(h, r))
    requires ZeroFrom(mem[..], pos) && Room(pos, len, mem.Length)
    modifies mem
    ensures Progress(mem[..], old(mem[..]), pos, AttrChunks(Forest(h, r)), len, end, left)
    ensures Room(end, left, mem.Length) && ZeroFrom(mem[..], end)
  {
    ghost var F := Forest(h, r);
    ghost var m0 := mem[..];
    var p := r;
    ghost var count := 0;
    end, left := pos, len;
    Start(m0, pos, len);
    assert F[..0] == [];
    while p.At?
      invariant InRange(p, |nodes|) && 0 <= count <= |F| && Forest(h, p) == F[count..]
      invariant Progress(mem[..], m0, pos, AttrChunks(F[..count]), len, end, left)
      invariant Room(end, left, mem.Length) && ZeroFrom(mem[..], end)
      decreases |F| - count
    {
      assert NodeOk(h, p.i);
      assert F[count] == TreeAt(h, p.i) && F[count..][1..] == F[count + 1..];
      var a := nodes[p.i];
      var an, av := CStr(a.name.value), CStr(a.value.value);
      var c := Chunk(|an| + |a.value.value| + 4, [SPACE] + an + [EQUALS, QUOTE] + av + [QUOTE]);
      assert c == AttrChunk(F[count]);
      ghost var m1 := mem[..];
      var p', l' := EmitChunk(mem, end, left, c);
      Extend(m0, m1, mem[..], pos, AttrChunks(F[..count]), [c], len, end, left, p', l');
      AttrChunksSnoc(F, count);
      end, left := p', l';
      p := a.next;
      count := count + 1;
    }
    assert F[..count] == F;
  }

  lemma {:induction false} AttrChunksSnoc(attrs: seq<Tree>, k: nat)
    requires k < |attrs|
    ensures AttrChunks(attrs[..k + 1]) == AttrChunks(attrs[..k]) + [AttrChunk(attrs[k])]
    decreases k
  {
    if k == 0 {
      assert attrs[..1] == [attrs[0]];
      assert attrs[..1][1..] == [];
    } else {
      assert attrs[..k + 1][1..] == attrs[1..][..k];
      assert attrs[..k][1..] == attrs[1..][..k - 1];
      AttrChunksSnoc(attrs[1..], k - 1);
    }
  }

  /** The body part of build_xml_node for node i: its children and closing
      tag, its value and closing tag, or the short close. */
  method BuildBody(nodes: seq<Node>, ghost h: Heap, i: nat, level: nat, mem: array<Byte>, pos: nat, len: int)
    returns (end: nat, left: int)
    requires Ranked(h) && nodes == h.nodes && i < |nodes| && Printable(TreeAt(h, i))
    requires ZeroFrom(mem[..], pos) && Room(pos, len, mem.Length)
    modifies mem
    ensures Progress(mem[..], old(mem[..]), pos, Body(TreeAt(h, i), level), len, end, left)
    ensures Room(end, left, mem.Length) && ZeroFrom(mem[..], end)
    decreases DM(h, At(i)), PM(h, At(i)), 1
  {
    assert NodeOk(h, i);
    var nod := nodes[i];
    if nod.child.At? {
      end, left := BuildKidsBody(nodes, h, i, level, mem, pos, len);
    } else if nod.attr.Null? || ValueLen(nod) > 0 {
      end, left := BuildValueBody(nodes, h, i, level, mem, pos, len);
    } else {
      end, left := EmitChunk(mem, pos, len, Chunk(4, [SPACE, SLASH, GT, LF]));
    }
  }

  /** `>\n`, the children one level deeper, and the indented `</name>\n`. */
  method BuildKidsBody(nodes: seq<Node>, ghost h: Heap, i: nat, level: nat, mem: array<Byte>, pos: nat, len: int)
    returns (end: nat, left: int)
    requires Ranked(h) && nodes == h.nodes && i < |nodes| && Printable(TreeAt(h, i))
    requires nodes[i].child.At?
    requires ZeroFrom(mem[..], pos) && Room(pos, len, mem.Length)
    modifies mem
    ensures Progress(mem[..], old(mem[..]), pos, Body(TreeAt(h, i), level), len, end, left)
    ensures Room(end, left, mem.Length) && ZeroFrom(mem[..], end)
    decreases DM(h, At(i)), PM(h, At(i)), 0
  {
    ghost var m0 := mem[..];
    ghost var t := TreeAt(h, i);
    assert NodeOk(h, i);
    var nod := nodes[i];
    var name := CStr(nod.name.value);
    var c1 := Chunk(2, [GT, LF]);
    var c3 := Chunk(|name| + 4 + level, Tabs(level) + [LT, SLASH] + name + [GT, LF]);
    ghost var kids := RenderList(t.kids, level + 1);
    var p1, l1 := EmitChunk(mem, pos, len, c1);
    ghost var m1 := mem[..];
    var p2, l2 := BuildXmlNode(nodes, h, nod.child.i, level + 1, mem, p1, l1);
    ghost var m2 := mem[..];
    Extend(m0, m1, m2, pos, [c1], kids, len, p1, l1, p2, l2);
    end, left := EmitChunk(mem, p2, l2, c3);
    Extend(m0, m2, mem[..], pos, [c1] + kids, [c3], len, p2, l2, end, left);
  }

  /** `>`, the value and `</name>\n`. */
  method BuildValueBody(nodes: seq<Node>, ghost h: Heap, i: nat, level: nat, mem: array<Byte>, pos: nat, len: int)
    returns (end: nat, left: int)
    requires Ranked(h) && nodes == h.nodes && i < |nodes| && Printable(TreeAt(h, i))
    requires nodes[i].child.Null? && (nodes[i].attr.Null? || ValueLen(nodes[i]) > 0)
    requires ZeroFrom(mem[..], pos) && Room(pos, len, mem.Length)
    modifies mem
    ensures Progress(mem[..], old(mem[..]), pos, Body(TreeAt(h, i), level), len, end, left)
    ensures Room(end, left, mem.Length) && ZeroFrom(mem[..], end)
  {
    ghost var m0 := mem[..];
    ghost var t := TreeAt(h, i);
    assert NodeOk(h, i);
    var nod := nodes[i];
    var name := CStr(nod.name.value);
    var v := if nod.value.Some? then CStr(nod.value.value) else [];
    var c1, c2, c3 := Chunk(1, [GT]), Chunk(ValueLen(nod), v), Chunk(|name| + 4, [LT, SLASH] + name + [GT, LF]);
    assert t == Tree(nod.name, nod.value, Forest(h, nod.attr), Forest(h, nod.child));
    assert [c1, c2, c3] == Body(t, level);
    var p1, l1 := EmitChunk(mem, pos, len, c1);
    ghost var m1 := mem[..];
    var p2, l2 := EmitChunk(mem, p1, l1, c2);
    ghost var m2 := mem[..];
    Extend(m0, m1, m2, pos, [c1], [c2], len, p1, l1, p2, l2);
    end, left := EmitChunk(mem, p2, l2, c3);
    Extend(m0, m2, mem[..], pos, [c1, c2], [c3], len, p2, l2, end, left);
    assert [c1, c2] + [c3] == [c1, c2, c3];
  }

  /** bxml_buildxml: clears the buffer and writes the document from the
      root; returns the length of the whole rendering, whatever the buffer's
      size.  The buffer then holds a NUL-terminated prefix of the rendering. */
  method BxmlBuildXml(d: Doc, mem: array<Byte>) returns (ret: int)
    requires d.Valid() && |d.nodes| > 0 && PrintableList(Forest(d.H(), d.root))
    modifies mem
    ensures var cs := RenderList(Forest(d.H(), d.root), 0);
      var out := Emit(cs, mem.Length).out;
      && ret == Cost(cs)
      && |out| <= mem.Length
      && mem[..] == out + Zeros(mem.Length - |out|)
      && out <= Text(cs)
      && (mem.Length > 0 ==> |out| < mem.Length)
      && (Cost(cs) < mem.Length ==> out == Text(cs))
  {
    Clear(mem);
    ghost var h := d.H();
    var end, left := BuildXmlNode(d.nodes, h, 0, 0, mem, 0, mem.Length);
    ret := mem.Length - left;
    RenderListHonest(Forest(h, At(0)), 0);
    Finished(RenderList(Forest(h, At(0)), 0), mem[..], end, left);
  }

  /** What a whole rendering leaves in a cleared buffer: the emitted prefix
      of the text, NUL-filled to the end, shorter than the buffer, and all of
      the text when its cost is below the buffer's length; the capacity left
      is the buffer's length less the whole cost. */
  lemma Finished(cs: seq<Chunk>, m: Bytes, end: int, left: int)
    requires Honest(cs) && Progress(m, Zeros(|m|), 0, cs, |m|, end, left)
    ensures var out := Emit(cs, |m|).out;
      && |m| - left == Cost(cs)
      && |out| <= |m|
      && m == out + Zeros(|m| - |out|)
      && out <= Text(cs)
      && (|m| > 0 ==> |out| < |m|)
      && (Cost(cs) < |m| ==> out == Text(cs))
  {
    EmitLeft(cs, |m|);
    EmitPrefix(cs, |m|);
    EmitBound(cs, |m|);
    if Cost(cs) < |m| {
      EmitAll(cs, |m|);
    }
    assert Zeros(|m|)[..0] == [];
  }
}
