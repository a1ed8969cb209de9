/** Bytes and the little-endian integer layouts a JavaScript `DataView`
    writes with `setUint8`, `setUint16(…, true)`, `setInt16(…, true)` and
    `setUint32(…, true)`. Values are reduced modulo 2^8, 2^16 or 2^32 first,
    exactly as the ToUint8/ToUint16/ToUint32 conversions do. */
module Bytes {

  type Byte = b: int | 0 <= b < 0x100

  function DecodeLE16(b: seq<Byte>): nat
    requires |b| == 2
  {
    b[0] as int + 0x100 * (b[1] as int)
  }

  function DecodeLE32(b: seq<Byte>): nat
    requires |b| == 4
  {
    b[0] as int + 0x100 * (b[1] as int + 0x100 * (b[2] as int + 0x100 * (b[3] as int)))
  }

  /** The two bytes, least significant first, that `setUint16(off, v, true)`
      stores; `setInt16` stores the same two bytes for the same integer. */
  function LE16(v: int): (b: seq<Byte>)
    ensures |b| == 2
    ensures DecodeLE16(b) == v % 0x1_0000
  {
    var u := v % 0x1_0000;
    [u % 0x100, u / 0x100]
  }

  /** The four bytes, least significant first, that `setUint32(off, v, true)`
      stores. */
  function LE32(v: int): (b: seq<Byte>)
    ensures |b| == 4
    ensures DecodeLE32(b) == v % 0x1_0000_0000
  {
    var u := v % 0x1_0000_0000;
    var lo := u % 0x1_0000;
    var hi := u / 0x1_0000;
    assert u == lo + 0x1_0000 * hi;
    [lo % 0x100, lo / 0x100, hi % 0x100, hi / 0x100]
  }

  /** Overwrites `|xs|` elements of `view` starting at `off`, keeping every
      other element: a `DataView` write or a typed array's `set`. Both throw
      when the write would leave the buffer, so callers stay in range. */
  function Overwrite<T>(view: seq<T>, off: nat, xs: seq<T>): (r: seq<T>)
    requires off + |xs| <= |view|
    ensures |r| == |view|
    ensures r[off..off + |xs|] == xs
    ensures forall k :: 0 <= k < |view| && !(off <= k < off + |xs|) ==> r[k] == view[k]
  {
    view[..off] + xs + view[off + |xs|..]
  }

  /** Up to the end of the write, the result is the untouched prefix
      followed by the written elements. */
  lemma OverwritePrefix<T>(view: seq<T>, off: nat, xs: seq<T>)
    requires off + |xs| <= |view|
    ensures Overwrite(view, off, xs)[..off + |xs|] == view[..off] + xs
  {
    var a := view[..off] + xs;
    assert Overwrite(view, off, xs) == a + view[off + |xs|..];
    assert (a + view[off + |xs|..])[..|a|] == a;
  }

  lemma OverwriteKeepsPrefix<T>(view: seq<T>, off: nat, xs: seq<T>)
    requires off + |xs| <= |view|
    ensures Overwrite(view, off, xs)[..off] == view[..off]
  {
  }

  lemma OverwriteSlice<T>(view: seq<T>, off: nat, xs: seq<T>, i: nat, j: nat)
    requires off + |xs| <= |view| && i <= j <= |xs|
    ensures Overwrite(view, off, xs)[off + i..off + j] == xs[i..j]
  {
    var r := Overwrite(view, off, xs);
    assert r[off + i..off + j] == r[off..off + |xs|][i..j];
  }

  /** Two writes at adjacent offsets from the start are one write of their
      concatenation. */
  lemma OverwriteAdjacent<T>(view: seq<T>, xs: seq<T>, ys: seq<T>)
    requires |xs| + |ys| <= |view|
    ensures Overwrite(Overwrite(view, 0, xs), |xs|, ys) == Overwrite(view, 0, xs + ys)
  {
    var once := Overwrite(view, 0, xs);
    assert once == xs + view[|xs|..];
    assert once[..|xs|] == xs;
    assert once[|xs| + |ys|..] == view[|xs| + |ys|..];
  }
}
