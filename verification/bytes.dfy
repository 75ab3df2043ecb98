/**
 * Bytes and fixed-width unsigned integers as QDataStream writes them: big-endian,
 * which is the stream's default byte order (no byte order is ever set on the streams
 * of this library).
 */
module Bytes {

  type byte = b: int | 0 <= b < 0x100
  type u16 = n: int | 0 <= n < 0x1_0000
  type u32 = n: int | 0 <= n < 0x1_0000_0000
  type u64 = n: int | 0 <= n < 0x1_0000_0000_0000_0000

  /** 256 to the power k: the number of values k bytes can hold. */
  function Pow256(k: nat): (p: nat)
    ensures p > 0
  {
    if k == 0 then 1 else 256 * Pow256(k - 1)
  }

  lemma Pow256Widths()
    ensures Pow256(1) == 0x100
    ensures Pow256(2) == 0x1_0000
    ensures Pow256(4) == 0x1_0000_0000
    ensures Pow256(8) == 0x1_0000_0000_0000_0000
  {
  }

  /** The k-byte big-endian encoding of n. */
  function ToBE(n: nat, k: nat): (s: seq<byte>)
    requires n < Pow256(k)
    ensures |s| == k
  {
    if k == 0 then [] else ToBE(n / 256, k - 1) + [n % 256]
  }

  /** The unsigned value of a big-endian byte string. */
  function FromBE(s: seq<byte>): (n: nat)
    ensures n < Pow256(|s|)
  {
    if s == [] then 0 else 256 * FromBE(s[..|s| - 1]) + s[|s| - 1]
  }

  /** Reading back a big-endian encoding gives the encoded number. */
  lemma {:induction false} FromBEToBE(n: nat, k: nat)
    requires n < Pow256(k)
    ensures FromBE(ToBE(n, k)) == n
  {
    if k > 0 {
      var s := ToBE(n, k);
      assert s[..k - 1] == ToBE(n / 256, k - 1);
      FromBEToBE(n / 256, k - 1);
    }
  }

  /** Re-encoding a decoded byte string at its own width gives the same bytes. */
  lemma {:induction false} ToBEFromBE(s: seq<byte>)
    ensures ToBE(FromBE(s), |s|) == s
  {
    if s != [] {
      var k := |s| - 1;
      var n := FromBE(s);
      assert n / 256 == FromBE(s[..k]);
      assert n % 256 == s[k];
      ToBEFromBE(s[..k]);
      assert s == s[..k] + [s[k]];
    }
  }

  /** A 64-bit pattern read as a two's-complement signed integer (qint64, qsizetype). */
  function Signed64(u: u64): (v: int)
    ensures -0x8000_0000_0000_0000 <= v < 0x8000_0000_0000_0000
    ensures v >= 0 ==> v == u
    ensures v < 0 ==> v + 0x1_0000_0000_0000_0000 == u
  {
    if u < 0x8000_0000_0000_0000 then u else u - 0x1_0000_0000_0000_0000
  }
}
