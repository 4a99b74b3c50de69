/** Saving a document in the binary format (bxml.c:415-500): calc_node_size
    and bxml_buffer_size compute the size of the encoding, build_bxml_node
    writes one node's record into a caller's buffer while keeping count of
    the room left, and bxml_build writes the header and the root's record.
    Each is proved to compute `Size` or write `Encode` of the node's tree. */
module BinEncode {
  import opened Base
  import opened Store
  import opened BinCodec

  // ---------------------------------------------------------------------
  // What a partial write leaves in a buffer.

  /** Byte j of m, where it differs from m0, lies below `lim` and holds the
      byte of e meant for its place when e is written at `at`. */
  ghost predicate ByteWrote(m: Bytes, m0: Bytes, at: int, e: Bytes, lim: int, j: int) {
    0 <= j < |m| && j < |m0| && m[j] != m0[j] ==> at <= j < at + |e| && j < lim && m[j] == e[j - at]
  }

  /** m is m0 with e written at `at`, perhaps only in part, and nothing
      written at or past `lim`. */
  ghost predicate WroteWithin(m: Bytes, m0: Bytes, at: int, e: Bytes, lim: int) {
    |m| == |m0| && forall j :: ByteWrote(m, m0, at, e, lim, j)
  }

  /** Byte k of e is in its place when e is written at `at`. */
  ghost predicate ByteHeld(m: Bytes, at: int, e: Bytes, k: int) {
    0 <= k < |e| && 0 <= at + k < |m| ==> m[at + k] == e[k]
  }

  /** m holds all of e at `at`. */
  ghost predicate Holds(m: Bytes, at: int, e: Bytes) {
    0 <= at && at + |e| <= |m| && forall k :: ByteHeld(m, at, e, k)
  }

  /** Holding e at `at` is having e as the slice there. */
  lemma HoldsSlice(m: Bytes, at: nat, e: Bytes)
    requires at + |e| <= |m|
    ensures Holds(m, at, e) <==> m[at..at + |e|] == e
  {
    if Holds(m, at, e) {
      forall k | 0 <= k < |e| ensures m[at..at + |e|][k] == e[k] {
        assert ByteHeld(m, at, e, k);
      }
    }
    if m[at..at + |e|] == e {
      forall k ensures ByteHeld(m, at, e, k) {
        if 0 <= k < |e| {
          assert m[at + k] == m[at..at + |e|][k];
        }
      }
    }
  }

  /** A write of B right after a complete write of A is a write of A + B,
      complete when the write of B is. */
  lemma Concat(m0: Bytes, m1: Bytes, m2: Bytes, w: int, at: int, A: Bytes, B: Bytes, E: Bytes,
               lim: int, lim': int, full: bool)
    requires at == w + |A| && lim' == lim && E == A + B
    requires WroteWithin(m1, m0, w, A, lim) && Holds(m1, w, A)
    requires WroteWithin(m2, m1, at, B, lim')
    requires full ==> Holds(m2, at, B)
    ensures WroteWithin(m2, m0, w, E, lim)
    ensures full ==> Holds(m2, w, E)
  {
    forall j ensures ByteWrote(m2, m0, w, A + B, lim, j) {
      assert ByteWrote(m1, m0, w, A, lim, j) && ByteWrote(m2, m1, at, B, lim, j);
      if 0 <= j < |m2| && m2[j] == m1[j] && m1[j] != m0[j] {
        assert ByteHeld(m1, w, A, j - w);
      }
    }
    if full {
      forall k ensures ByteHeld(m2, w, A + B, k) {
        if 0 <= k < |A| {
          assert ByteHeld(m1, w, A, k) && ByteWrote(m2, m1, at, B, lim, w + k);
        } else if |A| <= k < |A| + |B| {
          assert ByteHeld(m2, at, B, k - |A|);
        }
      }
    }
  }

  /** A write of A, perhaps in part, is a write in part of anything that
      begins with A. */
  lemma WroteMore(m: Bytes, m0: Bytes, w: int, A: Bytes, B: Bytes, E: Bytes, lim: int)
    requires WroteWithin(m, m0, w, A, lim) && E == A + B
    ensures WroteWithin(m, m0, w, E, lim)
  {
    forall j ensures ByteWrote(m, m0, w, A + B, lim, j) {
      assert ByteWrote(m, m0, w, A, lim, j);
    }
  }

  /** Nothing written is a write of anything. */
  lemma WroteNothing(m: Bytes, at: int, e: Bytes, lim: int)
    ensures WroteWithin(m, m, at, e, lim)
  {
    forall j ensures ByteWrote(m, m, at, e, lim, j) {
    }
  }

  /** A complete write within bounds: m is m0 with e put in at `at`. */
  lemma Overlaid(m: Bytes, m0: Bytes, at: nat, e: Bytes, lim: int)
    requires WroteWithin(m, m0, at, e, lim) && Holds(m, at, e)
    ensures m == m0[..at] + e + m0[at + |e|..]
  {
    var r := m0[..at] + e + m0[at + |e|..];
    forall j | 0 <= j < |m| ensures m[j] == r[j] {
      assert ByteWrote(m, m0, at, e, lim, j);
      if at <= j < at + |e| {
        assert ByteHeld(m, at, e, j - at);
      }
    }
  }

  /** The encoding of a list is the encodings of its parts. */
  lemma {:induction false} EncodeListAppend(a: seq<Tree>, b: seq<Tree>)
    ensures EncodeList(a + b) == EncodeList(a) + EncodeList(b)
    ensures SizeList(a + b) == SizeList(a) + SizeList(b)
    decreases |a|
  {
    if |a| == 0 {
      assert a + b == b;
    } else {
      assert (a + b)[0] == a[0] && (a + b)[1..] == a[1..] + b;
      EncodeListAppend(a[1..], b);
    }
  }

  /** A list is its first k + 1 records followed by the rest. */
  lemma ListSplit(ts: seq<Tree>, k: nat)
    requires k < |ts|
    ensures EncodeList(ts) == EncodeList(ts[..k + 1]) + EncodeList(ts[k + 1..])
    ensures SizeList(ts) == SizeList(ts[..k + 1]) + SizeList(ts[k + 1..])
  {
    assert ts == ts[..k + 1] + ts[k + 1..];
    EncodeListAppend(ts[..k + 1], ts[k + 1..]);
  }

  // ---------------------------------------------------------------------
  // memcpy and memset.

  /** `memcpy(mem + at, s, |s|)` */
  method Put(mem: array<Byte>, at: nat, s: Bytes)
    requires at + |s| <= mem.Length
    modifies mem
    ensures mem[..] == old(mem[..])[..at] + s + old(mem[..])[at + |s|..]
  {
    forall j | 0 <= j < |s| {
      mem[at + j] := s[j];
    }
    assert mem[..] == old(mem[..])[..at] + s + old(mem[..])[at + |s|..];
  }

  /** What Put leaves is a complete write of s, within any limit past it. */
  lemma PutWrote(m0: Bytes, m1: Bytes, at: nat, s: Bytes, lim: int)
    requires at + |s| <= |m0| && at + |s| <= lim
    requires m1 == m0[..at] + s + m0[at + |s|..]
    ensures WroteWithin(m1, m0, at, s, lim) && Holds(m1, at, s)
  {
    forall j ensures ByteWrote(m1, m0, at, s, lim, j) {
    }
    HoldsSlice(m1, at, s);
  }


  // ---------------------------------------------------------------------
  // calc_node_size and bxml_buffer_size.

  /** calc_node_size: the number of bytes build_bxml_node writes for node i. */
  method CalcNodeSize(nodes: seq<Node>, ghost h: Heap, i: nat) returns (len: nat)
    requires Ranked(h) && nodes == h.nodes && i < |nodes|
    ensures len == Size(TreeAt(h, i))
    decreases DM(h, At(i)), 0
  {
    assert NodeOk(h, i);
    var nod := nodes[i];
    len := 8 + |NameBytes(nod.name)| + |ValueBytes(nod.value)|;
    var sa := SizeChain(nodes, h, nod.attr);
    var sk := SizeChain(nodes, h, nod.child);
    len := len + sa + sk;
  }

  /** calc_node_size's loops: the sizes of a chain's nodes added up. */
  method SizeChain(nodes: seq<Node>, ghost h: Heap, r: Ref) returns (len: nat)
    requires Ranked(h) && nodes == h.nodes && InRange(r, |nodes|)
    ensures len == SizeList(Forest(h, r))
    decreases DM(h, r), 2
  {
    ghost var F := Forest(h, r);
    len := 0;
    var p := r;
    ghost var j := 0;
    while p.At?
      invariant InRange(p, |nodes|) && 0 <= j <= |F|
      invariant Forest(h, p) == F[j..]
      invariant p.At? ==> DM(h, p) == DM(h, r)
      invariant len == SizeList(F[..j])
      decreases |F| - j
    {
      assert NodeOk(h, p.i);
      assert F[j] == TreeAt(h, p.i) && F[j..][1..] == F[j + 1..];
      var s := CalcNodeSize(nodes, h, p.i);
      SizeListSnoc(F, j);
      len := len + s;
      p := nodes[p.i].next;
      j := j + 1;
    }
    assert F[..j] == F;
  }

  /** bxml_buffer_size: the header and the root's record. */
  method BufferSize(d: Doc) returns (n: nat)
    requires d.Valid() && |d.nodes| > 0
    ensures n == HeaderSize + Size(TreeAt(d.H(), 0))
  {
    var s := CalcNodeSize(d.nodes, d.H(), 0);
    n := HeaderSize + s;
  }

  // ---------------------------------------------------------------------
  // build_bxml_node and bxml_build.

  /** The counting loops of build_bxml_node: the length of a chain, counted
      up to one past `cap`. */
  method CountChain(nodes: seq<Node>, ghost h: Heap, r: Ref, cap: nat) returns (c: nat)
    requires Ranked(h) && nodes == h.nodes && InRange(r, |nodes|)
    ensures c == if |Forest(h, r)| <= cap then |Forest(h, r)| else cap + 1
  {
    ghost var F := Forest(h, r);
    c := 0;
    var p := r;
    while p.At? && c <= cap
      invariant InRange(p, |nodes|) && 0 <= c <= |F| && c <= cap + 1
      invariant Forest(h, p) == F[c..]
      decreases |F| - c
    {
      assert NodeOk(h, p.i);
      assert F[c..][1..] == F[c + 1..];
      p := nodes[p.i].next;
      c := c + 1;
    }
  }

  /** build_bxml_node: writes node i's record at q in a buffer with `size`
      bytes left, and returns the bytes left after it, or -BuffTooSmall when
      the record does not fit; then the buffer holds part of the record.
      The counts must fit their fields (the C writes their low bytes). */
  method BuildBxmlNode(nodes: seq<Node>, ghost h: Heap, i: nat, mem: array<Byte>, q: nat, size: int) returns (ret: int)
    requires Ranked(h) && nodes == h.nodes && i < |nodes| && Encodable(TreeAt(h, i))
    requires q <= mem.Length && q + size <= mem.Length
    modifies mem
    ensures var t := TreeAt(h, i);
      && ret == (if Size(t) <= size then size - Size(t) else -BuffTooSmall)
      && WroteWithin(mem[..], old(mem[..]), q, Encode(t), q + size)
      && (ret >= 0 ==> Holds(mem[..], q, Encode(t)))
    decreases DM(h, At(i)), 1
  {
    ghost var t := TreeAt(h, i);
    ghost var m0 := mem[..];
    RecordLayout(t);
    var len := WriteHead(nodes, h, i, mem, q, size);
    if len < 0 {
      WroteNothing(m0, q, Encode(t), q + size);
      return -BuffTooSmall;
    }
    ghost var m1 := mem[..];
    var w := q + (size - len);
    ret := BuildKids(nodes, h, i, mem, w, len);
    Concat(m0, m1, mem[..], q, w, RecordHead(t), EncodeList(t.attrs) + EncodeList(t.kids), Encode(t),
           q + size, w + len, ret >= 0);
  }

  /** The first half of build_bxml_node: when the fixed part of node i's
      record fits in `size` bytes, writes it at q; returns the room left
      after it, negative when it does not fit (and then writes nothing). */
  method WriteHead(nodes: seq<Node>, ghost h: Heap, i: nat, mem: array<Byte>, q: nat, size: int) returns (len: int)
    requires Ranked(h) && nodes == h.nodes && i < |nodes| && Encodable(TreeAt(h, i))
    requires q <= mem.Length && q + size <= mem.Length
    modifies mem
    ensures var H := RecordHead(TreeAt(h, i));
      && len == size - |H|
      && (len < 0 ==> mem[..] == old(mem[..]))
      && (len >= 0 ==> WroteWithin(mem[..], old(mem[..]), q, H, q + size) && Holds(mem[..], q, H))
  {
    ghost var t := TreeAt(h, i);
    assert NodeOk(h, i);
    var nod := nodes[i];
    var name := NameBytes(nod.name);
    var value := ValueBytes(nod.value);
    len := size - 8 - |name| - |value|;
    if len < 0 {
      return;
    }
    var attrCount := CountChain(nodes, h, nod.attr, 255);
    var childCount := CountChain(nodes, h, nod.child, 65535);
    var head := Fixed(name, attrCount, childCount, value);
    assert head == RecordHead(t);
    ghost var m0 := mem[..];
    Put(mem, q, head);
    PutWrote(m0, mem[..], q, head, q + size);
  }

  /** The second half of build_bxml_node: the attribute records, then the
      child records, each chain stopping at the first record that does not
      fit in what is left. */
  method BuildKids(nodes: seq<Node>, ghost h: Heap, i: nat, mem: array<Byte>, w: nat, len: int) returns (ret: int)
    requires Ranked(h) && nodes == h.nodes && i < |nodes| && Encodable(TreeAt(h, i))
    requires len >= 0 && w + len <= mem.Length
    modifies mem
    ensures var t := TreeAt(h, i);
      var K, S := EncodeList(t.attrs) + EncodeList(t.kids), SizeList(t.attrs) + SizeList(t.kids);
      && ret == (if S <= len then len - S else -BuffTooSmall)
      && WroteWithin(mem[..], old(mem[..]), w, K, w + len)
      && (ret >= 0 ==> Holds(mem[..], w, K))
    decreases DM(h, At(i)), 0
  {
    ghost var t := TreeAt(h, i);
    ghost var m0 := mem[..];
    assert NodeOk(h, i);
    var nod := nodes[i];
    assert t.attrs == Forest(h, nod.attr) && t.kids == Forest(h, nod.child);
    ghost var EA, EK := EncodeList(t.attrs), EncodeList(t.kids);
    EncodeListLength(t.attrs);
    EncodeListLength(t.kids);
    ret := BuildChain(nodes, h, nod.attr, 255, mem, w, len);
    if ret < 0 {
      WroteMore(mem[..], m0, w, EA, EK, EA + EK, w + len);
      return;
    }
    ghost var m1 := mem[..];
    var at := w + (len - ret);
    ghost var rest := ret;
    ret := BuildChain(nodes, h, nod.child, 65535, mem, at, ret);
    Concat(m0, m1, mem[..], w, at, EA, EK, EA + EK, w + len, at + rest, ret >= 0);
  }

  /** A record is its fixed part, its attribute records and its child records. */
  lemma RecordLayout(t: Tree)
    ensures Encode(t) == RecordHead(t) + (EncodeList(t.attrs) + EncodeList(t.kids))
    ensures |RecordHead(t)| == 8 + |NameBytes(t.name)| + |ValueBytes(t.value)|
    ensures Size(t) == |RecordHead(t)| + SizeList(t.attrs) + SizeList(t.kids)
  {
    EncodeListLength(t.attrs);
    EncodeListLength(t.kids);
  }

  /** build_bxml_node's loops over the attribute chain (cap 255) and the
      child chain (cap 65535): each node's record in turn, stopping at the
      first that does not fit. */
  method BuildChain(nodes: seq<Node>, ghost h: Heap, r: Ref, cap: nat, mem: array<Byte>, w: nat, len: int) returns (ret: int)
    requires Ranked(h) && nodes == h.nodes && InRange(r, |nodes|) && |Forest(h, r)| <= cap
    requires AllEncodable(Forest(h, r))
    requires len >= 0 && w + len <= mem.Length
    modifies mem
    ensures var F := Forest(h, r);
      && ret == (if SizeList(F) <= len then len - SizeList(F) else -BuffTooSmall)
      && WroteWithin(mem[..], old(mem[..]), w, EncodeList(F), w + len)
      && (ret >= 0 ==> Holds(mem[..], w, EncodeList(F)))
    decreases DM(h, r), 3
  {
    ghost var F := Forest(h, r);
    ghost var m0 := mem[..];
    var p := r;
    var count := 0;
    var at := w;
    ret := len;
    assert F[..0] == [];
    WroteNothing(m0, w, EncodeList(F[..0]), w + len);
    while p.At? && count <= cap
      invariant InRange(p, |nodes|) && 0 <= count <= |F|
      invariant Forest(h, p) == F[count..]
      invariant p.At? ==> DM(h, p) == DM(h, r)
      invariant at == w + SizeList(F[..count]) && ret == len - SizeList(F[..count]) && ret >= 0
      invariant |EncodeList(F[..count])| == at - w
      invariant WroteWithin(mem[..], m0, w, EncodeList(F[..count]), w + len)
      invariant Holds(mem[..], w, EncodeList(F[..count]))
      decreases |F| - count
    {
      assert NodeOk(h, p.i);
      assert F[count] == TreeAt(h, p.i) && F[count..][1..] == F[count + 1..];
      var left := ChainStep(nodes, h, F, count, p.i, mem, m0, w, at, ret, len);
      if left < 0 {
        return left;
      }
      at := at + (ret - left);
      ret := left;
      p := nodes[p.i].next;
      count := count + 1;
    }
    assert F[..count] == F;
  }

  /** One turn of build_bxml_node's loop over a chain: writes the record of
      the count-th tree F[count] (node i) after the records of the trees
      before it, which the buffer already holds. */
  method ChainStep(nodes: seq<Node>, ghost h: Heap, ghost F: seq<Tree>, ghost count: nat, i: nat,
                   mem: array<Byte>, ghost m0: Bytes, ghost w: nat, at: nat, ret: int, ghost len: int)
    returns (left: int)
    requires Ranked(h) && nodes == h.nodes && i < |nodes| && count < |F| && F[count] == TreeAt(h, i)
    requires AllEncodable(F)
    requires at == w + SizeList(F[..count]) && ret == len - SizeList(F[..count]) && ret >= 0
    requires at + ret <= mem.Length && |EncodeList(F[..count])| == at - w
    requires WroteWithin(mem[..], m0, w, EncodeList(F[..count]), w + len)
    requires Holds(mem[..], w, EncodeList(F[..count]))
    modifies mem
    ensures left == (if Size(F[count]) <= ret then ret - Size(F[count]) else -BuffTooSmall)
    ensures left >= 0 ==>
      && at + (ret - left) == w + SizeList(F[..count + 1]) && left == len - SizeList(F[..count + 1])
      && |EncodeList(F[..count + 1])| == at + (ret - left) - w
      && WroteWithin(mem[..], m0, w, EncodeList(F[..count + 1]), w + len)
      && Holds(mem[..], w, EncodeList(F[..count + 1]))
    ensures left < 0 ==> SizeList(F) > len && WroteWithin(mem[..], m0, w, EncodeList(F), w + len)
    decreases DM(h, At(i)), 2
  {
    ghost var m1 := mem[..];
    left := BuildBxmlNode(nodes, h, i, mem, at, ret);
    ChainStepAfter(F, count, m0, m1, mem[..], w, at, ret, len, left);
  }

  /** What the record of F[count], written after those before it, adds to
      the buffer (m1 before the write, m2 after it). */
  lemma ChainStepAfter(F: seq<Tree>, count: nat, m0: Bytes, m1: Bytes, m2: Bytes,
                       w: nat, at: nat, ret: int, len: int, left: int)
    requires count < |F| && AllEncodable(F)
    requires at == w + SizeList(F[..count]) && ret == len - SizeList(F[..count]) && ret >= 0
    requires |EncodeList(F[..count])| == at - w
    requires WroteWithin(m1, m0, w, EncodeList(F[..count]), w + len) && Holds(m1, w, EncodeList(F[..count]))
    requires left == (if Size(F[count]) <= ret then ret - Size(F[count]) else -BuffTooSmall)
    requires WroteWithin(m2, m1, at, Encode(F[count]), at + ret)
    requires left >= 0 ==> Holds(m2, at, Encode(F[count]))
    ensures left >= 0 ==>
      && at + (ret - left) == w + SizeList(F[..count + 1]) && left == len - SizeList(F[..count + 1])
      && |EncodeList(F[..count + 1])| == at + (ret - left) - w
      && WroteWithin(m2, m0, w, EncodeList(F[..count + 1]), w + len)
      && Holds(m2, w, EncodeList(F[..count + 1]))
    ensures left < 0 ==> SizeList(F) > len && WroteWithin(m2, m0, w, EncodeList(F), w + len)
  {
    ghost var A, B := EncodeList(F[..count]), Encode(F[count]);
    EncodeListSnoc(F, count);
    SizeListSnoc(F, count);
    EncodeLength(F[count]);
    Concat(m0, m1, m2, w, at, A, B, EncodeList(F[..count + 1]), w + len, at + ret, left >= 0);
    if left < 0 {
      ListSplit(F, count);
      WroteMore(m2, m0, w, EncodeList(F[..count + 1]), EncodeList(F[count + 1..]), EncodeList(F), w + len);
    }
  }

  /** bxml_build: clears the whole buffer, writes the header and the root's
      record, and returns the bytes used (bxml_buffer_size), or
      -BuffTooSmall.  When the buffer holds the header, it holds it whatever
      the outcome, followed by the record, complete or in part. */
  method BxmlBuild(d: Doc, mem: array<Byte>) returns (ret: int)
    requires d.Valid()
    requires mem.Length >= HeaderSize ==> |d.nodes| > 0 && Encodable(TreeAt(d.H(), 0))
    modifies mem
    ensures mem.Length < HeaderSize ==> ret == -BuffTooSmall && mem[..] == Zeros(mem.Length)
    ensures mem.Length >= HeaderSize ==>
      var t := TreeAt(d.H(), 0);
      var before := Header(d.version, d.flag) + Zeros(mem.Length - HeaderSize);
      && ret == (if HeaderSize + Size(t) <= mem.Length then HeaderSize + Size(t) else -BuffTooSmall)
      && WroteWithin(mem[..], before, HeaderSize, Encode(t), mem.Length)
      && (ret >= 0 ==> mem[..] == Header(d.version, d.flag) + Encode(t) + Zeros(mem.Length - ret))
  {
    Clear(mem);
    if mem.Length < HeaderSize {
      return -BuffTooSmall;
    }
    var hdr := Header(d.version, d.flag);
    Put(mem, 0, hdr);
    ZerosAround(mem[..], hdr, mem.Length);
    ret := BuildRoot(d.nodes, d.H(), mem, hdr);
  }

  /** The rest of bxml_build once the header is in place: the root record
      right behind it, within the buffer's remaining length. */
  method BuildRoot(nodes: seq<Node>, ghost h: Heap, mem: array<Byte>, ghost hdr: Bytes) returns (ret: int)
    requires Ranked(h) && nodes == h.nodes && |nodes| > 0 && Encodable(TreeAt(h, 0))
    requires |hdr| == HeaderSize <= mem.Length && mem[..] == hdr + Zeros(mem.Length - HeaderSize)
    modifies mem
    ensures var t := TreeAt(h, 0);
      && ret == (if HeaderSize + Size(t) <= mem.Length then HeaderSize + Size(t) else -BuffTooSmall)
      && WroteWithin(mem[..], old(mem[..]), HeaderSize, Encode(t), mem.Length)
      && (ret >= 0 ==> mem[..] == hdr + Encode(t) + Zeros(mem.Length - ret))
  {
    var len := BuildBxmlNode(nodes, h, 0, mem, HeaderSize, mem.Length - HeaderSize);
    if len < 0 {
      return len;
    }
    ret := mem.Length - len;
    EncodeLength(TreeAt(h, 0));
    Imaged(mem[..], old(mem[..]), hdr, Encode(TreeAt(h, 0)), mem.Length);
  }

  /** A header put at the front of a cleared buffer. */
  lemma ZerosAround(m: Bytes, hdr: Bytes, L: nat)
    requires |hdr| <= L && m == Zeros(L)[..0] + hdr + Zeros(L)[|hdr|..]
    ensures m == hdr + Zeros(L - |hdr|)
  {
    assert Zeros(L)[|hdr|..] == Zeros(L - |hdr|);
  }

  /** A cleared buffer holding a header, once a record is written after the
      header, is the header, the record and zeros. */
  lemma Imaged(m: Bytes, before: Bytes, hdr: Bytes, E: Bytes, L: nat)
    requires |hdr| + |E| <= L && before == hdr + Zeros(L - |hdr|)
    requires WroteWithin(m, before, |hdr|, E, L) && Holds(m, |hdr|, E)
    ensures m == hdr + E + Zeros(L - |hdr| - |E|)
  {
    Overlaid(m, before, |hdr|, E, L);
    assert before[..|hdr|] == hdr;
    assert before[|hdr| + |E|..] == Zeros(L - |hdr| - |E|);
  }
}
