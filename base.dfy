/** Basic values shared by every part of the model: C characters, byte strings,
    the Option wrapper and little-endian field encodings. */
module Base {

  /** A C `char` as the library uses it: one byte, 0..255. */
  type Byte = b: int | 0 <= b < 256

  type Bytes = seq<Byte>

  datatype Option<T> = None | Some(value: T)

  const NUL: Byte := 0

  // The characters the text format gives a meaning to, as bytes.
  const SPACE: Byte := ' ' as int
  const TAB: Byte := '\t' as int
  const CR: Byte := '\r' as int
  const LF: Byte := '\n' as int
  const LT: Byte := '<' as int
  const GT: Byte := '>' as int
  const SLASH: Byte := '/' as int
  const EQUALS: Byte := '=' as int
  const QUOTE: Byte := '"' as int
  const QMARK: Byte := '?' as int
  const BANG: Byte := '!' as int
  const AMP: Byte := '&' as int
  const COLON: Byte := ':' as int
  const DOT: Byte := '.' as int

  /** True when `s` can be the contents of a C string (no terminator inside). */
  predicate NoNul(s: Bytes) {
    forall i :: 0 <= i < |s| ==> s[i] != NUL
  }

  /** Index of the first occurrence of `c` in `s`, or |s| if there is none. */
  function IndexOf(s: Bytes, c: Byte): (k: nat)
    ensures k <= |s|
    ensures k < |s| ==> s[k] == c
    ensures forall i :: 0 <= i < k ==> s[i] != c
  {
    if |s| == 0 then 0
    else if s[0] == c then 0
    else 1 + IndexOf(s[1..], c)
  }

  /** IndexOf is characterised by its contract: k is the first c, or |s|. */
  lemma {:induction false} IndexOfIs(s: Bytes, c: Byte, k: nat)
    requires k <= |s| && (k < |s| ==> s[k] == c) && forall i :: 0 <= i < k ==> s[i] != c
    ensures IndexOf(s, c) == k
  {
    if |s| > 0 && s[0] != c {
      IndexOfIs(s[1..], c, k - 1);
    }
  }

  /** What C's string functions see of a stored buffer: the bytes before the first NUL. */
  function CStr(s: Bytes): (r: Bytes)
    ensures NoNul(r)
    ensures r == s[..IndexOf(s, NUL)]
  {
    s[..IndexOf(s, NUL)]
  }

  lemma CStrOfClean(s: Bytes)
    requires NoNul(s)
    ensures CStr(s) == s
  {
    assert IndexOf(s, NUL) == |s|;
  }

  /** `n` zero bytes. */
  function Zeros(n: nat): (r: Bytes)
    ensures |r| == n && forall j :: 0 <= j < n ==> r[j] == NUL
  {
    seq(n, _ => NUL)
  }

  /** `memset(mem, 0, mem.Length)` */
  method Clear(mem: array<Byte>)
    modifies mem
    ensures mem[..] == Zeros(mem.Length)
  {
    forall j | 0 <= j < mem.Length {
      mem[j] := NUL;
    }
  }

  /** The byte holding `n mod 256`. */
  function ByteOf(n: int): Byte {
    n % 256
  }

  /** Little-endian encoding of `n` on `width` bytes (the host byte order). */
  function LE(n: nat, width: nat): (r: Bytes)
    ensures |r| == width
  {
    if width == 0 then [] else [ByteOf(n)] + LE(n / 256, width - 1)
  }

  /** Little-endian decoding of a byte string. */
  function UnLE(s: Bytes): (n: nat)
    ensures n < Pow256(|s|)
  {
    if |s| == 0 then 0 else s[0] + 256 * UnLE(s[1..])
  }

  function Pow256(k: nat): (r: nat)
    ensures r >= 1
  {
    if k == 0 then 1 else 256 * Pow256(k - 1)
  }

  /** Decoding undoes encoding for every value that fits the width. */
  lemma {:induction false} UnLEOfLE(n: nat, width: nat)
    requires n < Pow256(width)
    ensures UnLE(LE(n, width)) == n
  {
    if width > 0 {
      UnLEOfLE(n / 256, width - 1);
      assert LE(n, width)[1..] == LE(n / 256, width - 1);
    }
  }
}
