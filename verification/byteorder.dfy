/**
 * Byte strings and byte order.
 *
 * The ELF reader maps a file and reads each multi-byte header, section-header
 * and dynamic-entry field through a native (host byte order) load, then
 * passes it through `resive`, which byte-swaps exactly when the file's byte
 * order differs from the host's.  This module defines the little- and
 * big-endian values of a byte string, their inverse encodings, the byte swap,
 * and proves that "native load, then resive" always yields the field's value
 * in the FILE's byte order, whichever host the reader runs on.
 */
module ByteOrder {

  /** One byte of the mapped file, as the unsigned value 0..255. */
  newtype Byte = b: int | 0 <= b < 256
  type Bytes = seq<Byte>

  datatype Option<+T> = None | Some(value: T)

  /** 256 to the power n: the number of distinct values of an n-byte field. */
  function Pow256(n: nat): (r: nat)
    ensures r > 0
  {
    if n == 0 then 1 else 256 * Pow256(n - 1)
  }

  /** The byte string in reverse order. */
  function Reverse(s: Bytes): (r: Bytes)
    ensures |r| == |s|
    ensures forall i :: 0 <= i < |s| ==> r[i] == s[|s| - 1 - i]
  {
    if |s| == 0 then [] else Reverse(s[1..]) + [s[0]]
  }

  lemma ReverseReverse(s: Bytes)
    ensures Reverse(Reverse(s)) == s
  {
    var r := Reverse(Reverse(s));
    assert |r| == |s|;
    forall i | 0 <= i < |s|
      ensures r[i] == s[i]
    {
      assert Reverse(s)[|s| - 1 - i] == s[i];
    }
  }

  /** Value of a byte string read least-significant byte first. */
  function LeValue(bs: Bytes): (v: nat)
    ensures v < Pow256(|bs|)
  {
    if |bs| == 0 then 0 else bs[0] as nat + 256 * LeValue(bs[1..])
  }

  /** Value of a byte string read most-significant byte first. */
  function BeValue(bs: Bytes): (v: nat)
    ensures v < Pow256(|bs|)
  {
    LeValue(Reverse(bs))
  }

  /** The w-byte little-endian encoding of v. */
  function ToLeBytes(v: nat, w: nat): (r: Bytes)
    requires v < Pow256(w)
    ensures |r| == w
    ensures LeValue(r) == v
  {
    if w == 0 then []
    else
      DivBound(v, Pow256(w - 1));
      var rest := ToLeBytes(v / 256, w - 1);
      LeValueCons((v % 256) as Byte, rest);
      DivMod256(v);
      [(v % 256) as Byte] + rest
  }

  lemma LeValueCons(b: Byte, rest: Bytes)
    ensures LeValue([b] + rest) == b as nat + 256 * LeValue(rest)
  {
    assert ([b] + rest)[1..] == rest;
  }

  /** Reducing modulo a positive width stays below it and below x, and fixes values already below it. */
  lemma ModBelow(x: nat, p: nat)
    requires p > 0
    ensures x % p < p && x % p <= x
    ensures x < p ==> x % p == x
  {
  }

  /** Multiplying both sides of a <= b by the same natural number keeps the order. */
  lemma MulLe(a: nat, b: nat, c: nat)
    requires a <= b
    ensures a * c <= b * c
  {
  }

  lemma DivMod256(v: nat)
    ensures v == v % 256 + 256 * (v / 256)
  {
  }

  /** The w-byte big-endian encoding of v. */
  function ToBeBytes(v: nat, w: nat): (r: Bytes)
    requires v < Pow256(w)
    ensures |r| == w
    ensures BeValue(r) == v
  {
    var le := ToLeBytes(v, w);
    ReverseReverse(le);
    Reverse(le)
  }

  lemma DivBound(v: nat, p: nat)
    requires v < 256 * p
    ensures v / 256 < p
  {
  }

  /** Encoding the value of a byte string gives back the byte string. */
  lemma {:induction false} LeBytesOfValue(bs: Bytes)
    ensures ToLeBytes(LeValue(bs), |bs|) == bs
  {
    if |bs| > 0 {
      var v := LeValue(bs);
      assert v % 256 == bs[0] as nat;
      assert v / 256 == LeValue(bs[1..]);
      LeBytesOfValue(bs[1..]);
      assert ToLeBytes(v, |bs|) == [bs[0]] + bs[1..];
    }
  }

  lemma BeBytesOfValue(bs: Bytes)
    ensures ToBeBytes(BeValue(bs), |bs|) == bs
  {
    LeBytesOfValue(Reverse(bs));
    ReverseReverse(bs);
  }

  /** `bswap` on a w-byte integer: reverse its w bytes. */
  function Bswap(v: nat, w: nat): (r: nat)
    requires v < Pow256(w)
    ensures r < Pow256(w)
  {
    BeValue(ToLeBytes(v, w))
  }

  /**
   * `elf_memview::resive`: the identity unless the reader has decided that
   * the file's byte order differs from the host's, and a byte swap if so.
   */
  function Resive(v: nat, w: nat, resiveable: bool): (r: nat)
    requires v < Pow256(w)
    ensures r < Pow256(w)
    ensures !resiveable ==> r == v
    ensures resiveable ==> ToLeBytes(r, w) == Reverse(ToLeBytes(v, w))
  {
    if !resiveable then v
    else
      var r := Bswap(v, w);
      ReverseReverse(ToLeBytes(v, w));
      LeBytesOfValue(Reverse(ToLeBytes(v, w)));
      r
  }

  /** Resiving twice with the same flag gives back the original value. */
  lemma ResiveTwice(v: nat, w: nat, resiveable: bool)
    requires v < Pow256(w)
    ensures Resive(Resive(v, w, resiveable), w, resiveable) == v
  {
    if resiveable {
      var r := Resive(v, w, true);
      var r2 := Resive(r, w, true);
      ReverseReverse(ToLeBytes(v, w));
      assert ToLeBytes(r2, w) == ToLeBytes(v, w);
      assert LeValue(ToLeBytes(r2, w)) == LeValue(ToLeBytes(v, w));
    }
  }

  /**
   * The value of a field's bytes in the given byte order.  A native load
   * reads them in the host's order; what they denote is their value
   * in the file's order.
   */
  function Load(bs: Bytes, bigEndian: bool): (v: nat)
    ensures v < Pow256(|bs|)
  {
    if bigEndian then BeValue(bs) else LeValue(bs)
  }

  /** The encoding of a w-byte value in the file's own byte order. */
  function FileStore(v: nat, w: nat, fileBigEndian: bool): (r: Bytes)
    requires v < Pow256(w)
    ensures |r| == w
    ensures Load(r, fileBigEndian) == v
  {
    if fileBigEndian then ToBeBytes(v, w) else ToLeBytes(v, w)
  }

  /** n entries of e bytes are one entry followed by n - 1 more. */
  lemma MulPred(n: nat, e: nat)
    requires n > 0
    ensures n * e == e + (n - 1) * e
    ensures e <= n * e
  {
  }

  /** The two w-byte halves of the 2w bytes from off. */
  lemma SplitPair(data: Bytes, off: nat, w: nat)
    requires off + w + w <= |data|
    ensures data[off..][..w + w][..w] == data[off..off + w]
    ensures data[off..][..w + w][w..] == data[off + w..off + w + w]
  {
  }

  /** Dropping k more bytes after dropping off. */
  lemma DropDrop(data: Bytes, off: nat, k: nat)
    requires off + k <= |data|
    ensures data[off..][k..] == data[off + k..]
  {
  }

  /** The bytes from a are those from a to b followed by those from b. */
  lemma SplitAt(data: Bytes, a: nat, b: nat)
    requires a <= b <= |data|
    ensures data[a..] == data[a..b] + data[b..]
  {
  }

  /** A window of data that agrees with t byte for byte is t. */
  lemma WindowIs(data: Bytes, at: nat, t: Bytes)
    requires at + |t| <= |data|
    requires forall i :: 0 <= i < |t| ==> data[at + i] == t[i]
    ensures data[at..at + |t|] == t
  {
  }

  /**
   * Whatever the host's byte order, a native load followed by `resive` with
   * the flag "file order differs from host order" yields the field's value
   * in the file's byte order.
   */
  lemma ResiveOfNativeLoad(bs: Bytes, hostBigEndian: bool, fileBigEndian: bool)
    ensures Resive(Load(bs, hostBigEndian), |bs|, fileBigEndian != hostBigEndian)
            == Load(bs, fileBigEndian)
  {
    var w := |bs|;
    if fileBigEndian != hostBigEndian {
      var n := Load(bs, hostBigEndian);
      var r := Resive(n, w, true);
      if hostBigEndian {
        BeBytesOfValue(bs);
        assert ToLeBytes(n, w) == Reverse(bs);
        ReverseReverse(bs);
        assert ToLeBytes(r, w) == bs;
        assert r == LeValue(bs);
      } else {
        LeBytesOfValue(bs);
        assert ToLeBytes(r, w) == Reverse(bs);
        assert r == LeValue(Reverse(bs));
      }
    }
  }

  /** Reading back a value stored in the file's byte order. */
  lemma FileLoadStore(bs: Bytes, fileBigEndian: bool)
    ensures FileStore(Load(bs, fileBigEndian), |bs|, fileBigEndian) == bs
  {
    if fileBigEndian { BeBytesOfValue(bs); } else { LeBytesOfValue(bs); }
  }
}
