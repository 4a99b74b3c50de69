/** The binary format (bxml.c:278-328, 415-500): a header followed by one
    node record, each record being

      name_len (1 byte) · name · attr_count (1) · child_count (2) ·
      value_len (4) · value · attr_count records · child_count records

    with multi-byte fields little-endian.  The encoder walks the arena in
    chain order; the decoder inserts every record it reads at the head of its
    parent's chain, so the document it rebuilds lists attributes and children
    in reverse, at every level. */
module BinCodec {
  import opened Base
  import opened Store

  // ---------------------------------------------------------------------
  // Header layout.  BXML_MAGIC, the header struct and BXML_BUFF_TOO_SMALL
  // live in bxml.h, which is not part of this model: the header is taken as
  // magic (4 bytes), version (2), flag (2), and the constants below are
  // stand-ins (only the magic's width and the error code's sign are used).

  const Magic: nat := 0x4C4D5842
  const HeaderSize: nat := 8
  const BuffTooSmall: int := 1

  function Header(version: nat, flag: nat): (r: Bytes)
    ensures |r| == HeaderSize
  {
    LE(Magic, 4) + LE(version, 2) + LE(flag, 2)
  }

  // ---------------------------------------------------------------------
  // Records.

  /** `name`/`name_len` as written: no name is written as length 0. */
  function NameBytes(o: Option<Bytes>): Bytes {
    if o.Some? then o.value else []
  }

  /** `value`/`value_len` as written. */
  function ValueBytes(o: Option<Bytes>): Bytes {
    if o.Some? then o.value else []
  }

  /** The field widths hold the tree: names below 256 bytes, at most 255
      attributes and 65535 children per node, values below 2^32 bytes. */
  predicate Encodable(t: Tree)
    decreases t, 1
  {
    && |NameBytes(t.name)| < 0x100
    && |t.attrs| < 0x100
    && |t.kids| < 0x1_0000
    && |ValueBytes(t.value)| < 0x1_0000_0000
    && AllEncodable(t.attrs)
    && AllEncodable(t.kids)
  }

  predicate AllEncodable(ts: seq<Tree>)
    decreases ts, 0
  {
    forall i :: 0 <= i < |ts| ==> Encodable(ts[i])
  }

  /** The fixed part of a record, up to and including the value. */
  function Fixed(nm: Bytes, ac: nat, kc: nat, vl: Bytes): Bytes {
    [ByteOf(|nm|)] + nm + [ByteOf(ac)] + LE(kc, 2) + LE(|vl|, 4) + vl
  }

  function RecordHead(t: Tree): Bytes {
    Fixed(NameBytes(t.name), |t.attrs|, |t.kids|, ValueBytes(t.value))
  }

  /** The record build_bxml_node writes for a subtree. */
  function Encode(t: Tree): Bytes {
    RecordHead(t) + EncodeList(t.attrs) + EncodeList(t.kids)
  }

  function EncodeList(ts: seq<Tree>): Bytes {
    if |ts| == 0 then [] else Encode(ts[0]) + EncodeList(ts[1..])
  }

  /** calc_node_size: 8 + name_len + value_len, plus the sizes of all
      attributes and children. */
  function Size(t: Tree): nat {
    8 + |NameBytes(t.name)| + |ValueBytes(t.value)| + SizeList(t.attrs) + SizeList(t.kids)
  }

  function SizeList(ts: seq<Tree>): nat {
    if |ts| == 0 then 0 else Size(ts[0]) + SizeList(ts[1..])
  }

  /** The computed size is exactly the number of bytes the encoder writes. */
  lemma {:induction false} EncodeLength(t: Tree)
    ensures |Encode(t)| == Size(t)
    decreases t, 1
  {
    EncodeListLength(t.attrs);
    EncodeListLength(t.kids);
  }

  lemma {:induction false} EncodeListLength(ts: seq<Tree>)
    ensures |EncodeList(ts)| == SizeList(ts)
    decreases ts, 0
  {
    if |ts| > 0 {
      EncodeLength(ts[0]);
      EncodeListLength(ts[1..]);
    }
  }

  /** Writing a list record by record: the encoding of a longer prefix extends
      the encoding of the shorter one. */
  lemma {:induction false} EncodeListSnoc(ts: seq<Tree>, k: nat)
    requires k < |ts|
    ensures EncodeList(ts[..k + 1]) == EncodeList(ts[..k]) + Encode(ts[k])
    decreases k
  {
    if k == 0 {
      assert ts[..1] == [ts[0]];
      assert ts[..1][1..] == [];
    } else {
      assert ts[..k + 1][1..] == ts[1..][..k];
      assert ts[..k][1..] == ts[1..][..k - 1];
      EncodeListSnoc(ts[1..], k - 1);
    }
  }

  lemma SizeListSnoc(ts: seq<Tree>, k: nat)
    requires k < |ts|
    ensures SizeList(ts[..k + 1]) == SizeList(ts[..k]) + Size(ts[k])
  {
    EncodeListSnoc(ts, k);
    EncodeListLength(ts[..k + 1]);
    EncodeListLength(ts[..k]);
    EncodeLength(ts[k]);
  }

  // ---------------------------------------------------------------------
  // Decoding, as a function of the input bytes.

  /** The fixed fields of a record as parse_bxml_node reads them: the name
      (always present, possibly empty), the value (only when value_len is
      not 0), the two counts, and where the attribute records start; Short
      when the fixed part runs past the input. */
  datatype Fields =
    | Short
    | Fields(name: Bytes, value: Option<Bytes>, attrCount: nat, kidCount: nat, next: nat)

  function ReadFields(mem: Bytes, p: nat): (r: Fields)
    requires p <= |mem|
    ensures r.Fields? ==> p < r.next <= |mem|
  {
    if p + 1 > |mem| then Short
    else
      var nl := mem[p] as nat;
      if p + 8 + nl > |mem| then Short
      else
        var vl := UnLE(mem[p + 4 + nl..p + 8 + nl]);
        var a0 := p + 8 + nl + vl;
        if a0 > |mem| then Short
        else
          Fields(mem[p + 1..p + 1 + nl],
                 if vl > 0 then Some(mem[p + 8 + nl..a0]) else None,
                 mem[p + 1 + nl] as nat,
                 UnLE(mem[p + 2 + nl..p + 4 + nl]),
                 a0)
  }

  /** One decoded record and the position after it, or Truncated. */
  datatype Decoded = Truncated | Decoded(tree: Tree, next: nat)

  /** Several consecutive decoded records and the position after them. */
  datatype DecodedList = TruncatedList | DecodedList(trees: seq<Tree>, next: nat)

  /** parse_bxml_node's reading of one record at p: its fields, then its
      attribute records, then its child records.  Truncated when the record
      runs past the input. */
  function DecodeRecord(mem: Bytes, p: nat): (r: Decoded)
    requires p <= |mem|
    ensures r.Decoded? ==> p < r.next <= |mem|
    decreases |mem| - p, 0, 0
  {
    var f := ReadFields(mem, p);
    if f.Short? then Truncated
    else
      var attrs := DecodeList(mem, f.next, f.attrCount);
      if attrs.TruncatedList? then Truncated
      else
        var kids := DecodeList(mem, attrs.next, f.kidCount);
        if kids.TruncatedList? then Truncated
        else Decoded(Tree(Some(f.name), f.value, attrs.trees, kids.trees), kids.next)
  }

  /** `count` consecutive records at p. */
  function DecodeList(mem: Bytes, p: nat, count: nat): (r: DecodedList)
    requires p <= |mem|
    ensures r.DecodedList? ==> p <= r.next <= |mem| && |r.trees| == count
    decreases |mem| - p, 1, count
  {
    if count == 0 then DecodedList([], p)
    else
      var first := DecodeRecord(mem, p);
      if first.Truncated? then TruncatedList
      else
        var rest := DecodeList(mem, first.next, count - 1);
        if rest.TruncatedList? then TruncatedList
        else DecodedList([first.tree] + rest.trees, rest.next)
  }

  /** What a decoded record holds for a tree: the name always present, an
      empty value absent. */
  function Canon(t: Tree): Tree {
    Tree(Some(NameBytes(t.name)),
         if ValueBytes(t.value) == [] then None else t.value,
         CanonList(t.attrs), CanonList(t.kids))
  }

  function CanonList(ts: seq<Tree>): (r: seq<Tree>)
    ensures |r| == |ts|
  {
    if |ts| == 0 then [] else [Canon(ts[0])] + CanonList(ts[1..])
  }

  /** A piece of a stretch of the input is the same piece of what it holds. */
  lemma SubSlice(mem: Bytes, p: nat, e: Bytes, i: nat, j: nat)
    requires p + |e| <= |mem| && mem[p..p + |e|] == e && i <= j <= |e|
    ensures mem[p + i..p + j] == e[i..j]
  {
    assert forall x :: p + i <= x < p + j ==> mem[x] == mem[p..p + |e|][x - p];
  }

  lemma PowersOf256()
    ensures Pow256(2) == 0x1_0000 && Pow256(4) == 0x1_0000_0000
  {
    assert Pow256(1) == 256;
    assert Pow256(3) == 0x100_0000;
  }

  /** The name and the count bytes read back from where they were written. */
  lemma ReadNameAndCounts(mem: Bytes, p: nat, nm: Bytes, ac: nat, kc: nat, vl: Bytes)
    requires |nm| < 0x100 && ac < 0x100 && kc < 0x1_0000
    requires var hd := Fixed(nm, ac, kc, vl); p + |hd| <= |mem| && mem[p..p + |hd|] == hd
    ensures mem[p] as nat == |nm| && p + 8 + |nm| <= |mem|
    ensures mem[p + 1..p + 1 + |nm|] == nm
    ensures mem[p + 1 + |nm|] as nat == ac
    ensures UnLE(mem[p + 2 + |nm|..p + 4 + |nm|]) == kc
  {
    var x1 := [ByteOf(|nm|)] + nm;
    var x2 := x1 + [ByteOf(ac)];
    var x3 := x2 + LE(kc, 2);
    var x4 := x3 + LE(|vl|, 4);
    SplitAppend(mem, p, x4, vl);
    SplitAppend(mem, p, x3, LE(|vl|, 4));
    SplitAppend(mem, p, x2, LE(kc, 2));
    SplitAppend(mem, p, x1, [ByteOf(ac)]);
    SplitAppend(mem, p, [ByteOf(|nm|)], nm);
    assert mem[p] == mem[p..p + 1][0];
    assert mem[p + 1 + |nm|] == mem[p + |x2| - 1..p + |x2|][0];
    PowersOf256();
    UnLEOfLE(kc, 2);
  }

  /** The value length and the value read back from where they were written. */
  lemma ReadValue(mem: Bytes, p: nat, nm: Bytes, ac: nat, kc: nat, vl: Bytes)
    requires |vl| < 0x1_0000_0000
    requires var hd := Fixed(nm, ac, kc, vl); p + |hd| <= |mem| && mem[p..p + |hd|] == hd
    ensures |Fixed(nm, ac, kc, vl)| == 8 + |nm| + |vl|
    ensures UnLE(mem[p + 4 + |nm|..p + 8 + |nm|]) == |vl|
    ensures mem[p + 8 + |nm|..p + 8 + |nm| + |vl|] == vl
  {
    var x3 := [ByteOf(|nm|)] + nm + [ByteOf(ac)] + LE(kc, 2);
    var x4 := x3 + LE(|vl|, 4);
    SplitAppend(mem, p, x4, vl);
    SplitAppend(mem, p, x3, LE(|vl|, 4));
    PowersOf256();
    UnLEOfLE(|vl|, 4);
  }

  /** The fixed fields of a record read back from where they were written. */
  lemma ReadFixed(mem: Bytes, p: nat, nm: Bytes, ac: nat, kc: nat, vl: Bytes)
    requires |nm| < 0x100 && ac < 0x100 && kc < 0x1_0000 && |vl| < 0x1_0000_0000
    requires var hd := Fixed(nm, ac, kc, vl); p + |hd| <= |mem| && mem[p..p + |hd|] == hd
    ensures ReadFields(mem, p) ==
      Fields(nm, if |vl| > 0 then Some(vl) else None, ac, kc, p + |Fixed(nm, ac, kc, vl)|)
  {
    ReadNameAndCounts(mem, p, nm, ac, kc, vl);
    ReadValue(mem, p, nm, ac, kc, vl);
  }

  /** The fixed fields of a tree's record read back from where they were written. */
  lemma ReadRecordHead(t: Tree, mem: Bytes, p: nat)
    requires Encodable(t) && p + |RecordHead(t)| <= |mem| && mem[p..p + |RecordHead(t)|] == RecordHead(t)
    ensures ReadFields(mem, p) ==
      Fields(NameBytes(t.name), Canon(t).value, |t.attrs|, |t.kids|, p + |RecordHead(t)|)
  {
    ReadFixed(mem, p, NameBytes(t.name), |t.attrs|, |t.kids|, ValueBytes(t.value));
  }

  /** DecodeRecord once its fields and its two lists are known. */
  lemma DecodeRecordOf(t: Tree, mem: Bytes, p: nat, a0: nat, k0: nat, e0: nat)
    requires p <= |mem|
    requires ReadFields(mem, p) == Fields(NameBytes(t.name), Canon(t).value, |t.attrs|, |t.kids|, a0)
    requires DecodeList(mem, a0, |t.attrs|) == DecodedList(CanonList(t.attrs), k0)
    requires DecodeList(mem, k0, |t.kids|) == DecodedList(CanonList(t.kids), e0)
    ensures DecodeRecord(mem, p) == Decoded(Canon(t), e0)
  {
  }

  /** DecodeList once its first record and the rest are known. */
  lemma DecodeListOf(ts: seq<Tree>, mem: Bytes, p: nat, q: nat, e: nat)
    requires p <= |mem| && |ts| > 0
    requires DecodeRecord(mem, p) == Decoded(Canon(ts[0]), q)
    requires DecodeList(mem, q, |ts[1..]|) == DecodedList(CanonList(ts[1..]), e)
    ensures DecodeList(mem, p, |ts|) == DecodedList(CanonList(ts), e)
  {
  }

  /** Where the parts of a record sit in the input. */
  lemma SplitRecord(t: Tree, mem: Bytes, p: nat)
    requires p + |Encode(t)| <= |mem| && mem[p..p + |Encode(t)|] == Encode(t)
    ensures var hd := RecordHead(t);
      var ea := EncodeList(t.attrs);
      var ek := EncodeList(t.kids);
      && |Encode(t)| == |hd| + |ea| + |ek|
      && mem[p..p + |hd|] == hd
      && mem[p + |hd|..p + |hd| + |ea|] == ea
      && mem[p + |hd| + |ea|..p + |hd| + |ea| + |ek|] == ek
  {
    var hd := RecordHead(t);
    var ea := EncodeList(t.attrs);
    var ek := EncodeList(t.kids);
    assert Encode(t) == (hd + ea) + ek;
    SplitAppend(mem, p, hd + ea, ek);
    SplitAppend(mem, p, hd, ea);
  }

  /** A record's fields as the decoder reads them, and where its two lists
      of records sit. */
  lemma RecordParts(t: Tree, mem: Bytes, p: nat)
    requires Encodable(t) && p + |Encode(t)| <= |mem| && mem[p..p + |Encode(t)|] == Encode(t)
    ensures var a0 := p + |RecordHead(t)|;
      var k0 := a0 + |EncodeList(t.attrs)|;
      && ReadFields(mem, p) == Fields(NameBytes(t.name), Canon(t).value, |t.attrs|, |t.kids|, a0)
      && k0 <= |mem| && mem[a0..k0] == EncodeList(t.attrs)
      && k0 + |EncodeList(t.kids)| == p + |Encode(t)|
      && mem[k0..k0 + |EncodeList(t.kids)|] == EncodeList(t.kids)
  {
    SplitRecord(t, mem, p);
    ReadRecordHead(t, mem, p);
  }

  /** The decoder reads back exactly what the encoder wrote, wherever it sits
      in the input: the record's tree (in canonical form) and the position
      right after it. */
  lemma {:induction false} DecodeEncode(t: Tree, mem: Bytes, p: nat)
    requires Encodable(t) && p + |Encode(t)| <= |mem| && mem[p..p + |Encode(t)|] == Encode(t)
    ensures DecodeRecord(mem, p) == Decoded(Canon(t), p + |Encode(t)|)
    decreases t, 2
  {
    var a0 := p + |RecordHead(t)|;
    var k0 := a0 + |EncodeList(t.attrs)|;
    RecordParts(t, mem, p);
    DecodeLists(t, mem, p, a0, k0, p + |Encode(t)|);
  }

  /** The record's two lists decode once its fields have been read. */
  lemma {:induction false} DecodeLists(t: Tree, mem: Bytes, p: nat, a0: nat, k0: nat, e0: nat)
    requires Encodable(t) && p <= |mem|
    requires ReadFields(mem, p) == Fields(NameBytes(t.name), Canon(t).value, |t.attrs|, |t.kids|, a0)
    requires a0 + |EncodeList(t.attrs)| == k0 <= |mem| && mem[a0..k0] == EncodeList(t.attrs)
    requires k0 + |EncodeList(t.kids)| == e0 <= |mem| && mem[k0..e0] == EncodeList(t.kids)
    ensures DecodeRecord(mem, p) == Decoded(Canon(t), e0)
    decreases t, 1
  {
    DecodeEncodeList(t.attrs, mem, a0);
    DecodeEncodeList(t.kids, mem, k0);
    DecodeRecordOf(t, mem, p, a0, k0, e0);
  }

  lemma {:induction false} DecodeEncodeList(ts: seq<Tree>, mem: Bytes, p: nat)
    requires AllEncodable(ts)
    requires p + |EncodeList(ts)| <= |mem| && mem[p..p + |EncodeList(ts)|] == EncodeList(ts)
    ensures DecodeList(mem, p, |ts|) == DecodedList(CanonList(ts), p + |EncodeList(ts)|)
    decreases ts, 1
  {
    if |ts| > 0 {
      DecodeEncodeCons(ts, mem, p);
    }
  }

  /** A non-empty list: its first record, then the others. */
  lemma {:induction false} DecodeEncodeCons(ts: seq<Tree>, mem: Bytes, p: nat)
    requires |ts| > 0 && AllEncodable(ts)
    requires p + |EncodeList(ts)| <= |mem| && mem[p..p + |EncodeList(ts)|] == EncodeList(ts)
    ensures DecodeList(mem, p, |ts|) == DecodedList(CanonList(ts), p + |EncodeList(ts)|)
    decreases ts, 0
  {
    var t, rest := ts[0], ts[1..];
    var q := p + |Encode(t)|;
    SplitList(ts, mem, p);
    DecodeEncode(t, mem, p);
    assert Encodable(t) && AllEncodable(rest) by {
      forall i | 0 <= i < |rest| ensures Encodable(rest[i]) {
        assert rest[i] == ts[i + 1];
      }
    }
    DecodeEncodeList(rest, mem, q);
    DecodeListOf(ts, mem, p, q, q + |EncodeList(rest)|);
  }

  /** Where the first record of a list and the others sit in the input. */
  lemma SplitList(ts: seq<Tree>, mem: Bytes, p: nat)
    requires |ts| > 0
    requires p + |EncodeList(ts)| <= |mem| && mem[p..p + |EncodeList(ts)|] == EncodeList(ts)
    ensures var q := p + |Encode(ts[0])|;
      && q <= |mem| && mem[p..q] == Encode(ts[0])
      && q + |EncodeList(ts[1..])| == p + |EncodeList(ts)|
      && mem[q..q + |EncodeList(ts[1..])|] == EncodeList(ts[1..])
  {
    var e0, er := Encode(ts[0]), EncodeList(ts[1..]);
    assert EncodeList(ts) == e0 + er;
    SplitAppend(mem, p, e0, er);
  }

  /** Two pieces written one after the other. */
  lemma SplitAppend(mem: Bytes, p: nat, a: Bytes, b: Bytes)
    requires p + |a + b| <= |mem| && mem[p..p + |a + b|] == a + b
    ensures mem[p..p + |a|] == a && mem[p + |a|..p + |a| + |b|] == b
  {
    SubSlice(mem, p, a + b, 0, |a|);
    assert (a + b)[..|a|] == a;
    SubSlice(mem, p, a + b, |a|, |a| + |b|);
    assert (a + b)[|a|..] == b;
  }

  // ---------------------------------------------------------------------
  // The order the decoder rebuilds.

  /** A tree with its attributes and children listed backwards, at every level. */
  function Mirror(t: Tree): Tree {
    Tree(t.name, t.value, MirrorList(t.attrs), MirrorList(t.kids))
  }

  /** The trees of ts mirrored, in reverse order: the decoder meets the last
      record last and puts it in front. */
  function MirrorList(ts: seq<Tree>): (r: seq<Tree>)
    ensures |r| == |ts|
    ensures forall i :: 0 <= i < |ts| ==> r[i] == Mirror(ts[|ts| - 1 - i])
  {
    if |ts| == 0 then [] else [Mirror(ts[|ts| - 1])] + MirrorList(ts[..|ts| - 1])
  }

  /** Mirroring twice gives the tree back: a second binary round trip
      restores the original order. */
  lemma {:induction false} MirrorMirror(t: Tree)
    ensures Mirror(Mirror(t)) == t
    decreases t, 1
  {
    MirrorMirrorList(t.attrs);
    MirrorMirrorList(t.kids);
  }

  lemma {:induction false} MirrorMirrorList(ts: seq<Tree>)
    ensures MirrorList(MirrorList(ts)) == ts
    decreases ts, 0
  {
    forall i | 0 <= i < |ts| ensures MirrorList(MirrorList(ts))[i] == ts[i] {
      MirrorMirror(ts[i]);
    }
  }
}
