/** Go's fixed-width integers and the big-endian codec of `encoding/binary`
    (`PutUint32`, `PutUint64`, `Uint32`, `Uint64`) used by the record layer. */
module Bytes {

  type byte = x: int | 0 <= x < 0x100
  type u32 = x: int | 0 <= x < 0x1_0000_0000
  type u64 = x: int | 0 <= x < 0x1_0000_0000_0000_0000

  const TwoTo32: nat := 0x1_0000_0000
  const TwoTo64: nat := 0x1_0000_0000_0000_0000

  /** 256 to the power n: the number of values n bytes can hold. */
  function Pow256(n: nat): (r: nat)
    ensures r > 0
  {
    if n == 0 then 1 else 256 * Pow256(n - 1)
  }

  /** The n-byte big-endian encoding of x, most significant byte first;
      digits beyond the n-th are dropped, as when a wider value is stored. */
  function ToBE(x: nat, n: nat): (r: seq<byte>)
    ensures |r| == n
  {
    if n == 0 then [] else ToBE(x / 256, n - 1) + [x % 256]
  }

  /** The number a big-endian byte string denotes. */
  function FromBE(s: seq<byte>): (r: nat)
    ensures r < Pow256(|s|)
  {
    if s == [] then 0
    else
      var hi := FromBE(s[..|s| - 1]);
      assert hi * 256 + s[|s| - 1] < Pow256(|s| - 1) * 256 by {
        assert hi <= Pow256(|s| - 1) - 1;
      }
      hi * 256 + s[|s| - 1]
  }

  /** `binary.BigEndian.PutUint32`. */
  function PutUint32(x: u32): (r: seq<byte>)
    ensures |r| == 4
  {
    ToBE(x, 4)
  }

  /** `binary.BigEndian.PutUint64`. */
  function PutUint64(x: u64): (r: seq<byte>)
    ensures |r| == 8
  {
    ToBE(x, 8)
  }

  /** `binary.BigEndian.Uint32`. */
  function Uint32(b: seq<byte>): (r: u32)
    requires |b| == 4
  {
    Pow256Values();
    FromBE(b)
  }

  /** `binary.BigEndian.Uint64`. */
  function Uint64(b: seq<byte>): (r: u64)
    requires |b| == 8
  {
    Pow256Values();
    FromBE(b)
  }

  lemma Pow256Values()
    ensures Pow256(4) == TwoTo32 && Pow256(8) == TwoTo64
  {
    assert Pow256(4) == 0x1_0000_0000 by {
      assert Pow256(2) == 0x1_0000;
    }
    assert Pow256(8) == 256 * 256 * 256 * 256 * Pow256(4);
  }

  /** Reading back an n-byte encoding of a value that fits gives the value. */
  lemma {:induction false} FromToBE(x: nat, n: nat)
    requires x < Pow256(n)
    ensures FromBE(ToBE(x, n)) == x
  {
    if n > 0 {
      var s := ToBE(x, n);
      assert s[..n - 1] == ToBE(x / 256, n - 1);
      FromToBE(x / 256, n - 1);
    }
  }

  /** Encoding the value of a byte string at its own width gives the string back. */
  lemma {:induction false} ToFromBE(s: seq<byte>)
    ensures ToBE(FromBE(s), |s|) == s
  {
    if s != [] {
      var n := |s|;
      var hi := FromBE(s[..n - 1]);
      var x := hi * 256 + s[n - 1];
      assert x / 256 == hi && x % 256 == s[n - 1];
      ToFromBE(s[..n - 1]);
      assert s == s[..n - 1] + [s[n - 1]];
    }
  }

  /** Reading back what `PutUint32` wrote gives the value. */
  lemma Uint32RoundTrip(x: u32)
    ensures Uint32(PutUint32(x)) == x
  {
    Pow256Values();
    FromToBE(x, 4);
  }

  /** Reading back what `PutUint64` wrote gives the value. */
  lemma Uint64RoundTrip(x: u64)
    ensures Uint64(PutUint64(x)) == x
  {
    Pow256Values();
    FromToBE(x, 8);
  }

  /** Writing back what `Uint64` read gives the same eight bytes. */
  lemma PutUint64RoundTrip(b: seq<byte>)
    requires |b| == 8
    ensures PutUint64(Uint64(b)) == b
  {
    ToFromBE(b);
  }
}
