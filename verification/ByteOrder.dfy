/** Numbers as bytes, most or least significant first. */
module ByteOrder {
  import opened Arithmetic

  type byte = b: int | 0 <= b < 256

  function Power256(n: nat): (p: nat)
    ensures p > 0
  {
    if n == 0 then 1 else 256 * Power256(n - 1)
  }

  /** The low `n` bytes of v, most significant first: SetBE16, SetBE32 and SetBE64 for n = 2, 4, 8. */
  function BigEndian(v: nat, n: nat): (s: seq<byte>)
    ensures |s| == n
  {
    if n == 0 then [] else BigEndian(v / 256, n - 1) + [v % 256]
  }

  /** GetBE16, GetBE32 and GetBE64. */
  function FromBigEndian(s: seq<byte>): nat {
    if s == [] then 0 else 256 * FromBigEndian(s[..|s| - 1]) + s[|s| - 1]
  }

  function Reverse(s: seq<byte>): (r: seq<byte>)
    ensures |r| == |s|
    ensures forall i | 0 <= i < |s| :: r[i] == s[|s| - 1 - i]
  {
    seq(|s|, i requires 0 <= i < |s| => s[|s| - 1 - i])
  }

  function LittleEndian(v: nat, n: nat): (s: seq<byte>)
    ensures |s| == n
  {
    Reverse(BigEndian(v, n))
  }

  function FromLittleEndian(s: seq<byte>): nat {
    FromBigEndian(Reverse(s))
  }

  /** Writing then reading gives the number back, cut to the width. */
  lemma {:induction false} BigEndianRoundTrip(v: nat, n: nat)
    ensures FromBigEndian(BigEndian(v, n)) == v % Power256(n)
    decreases n
  {
    if n > 0 {
      var s, p := BigEndian(v, n), Power256(n - 1);
      BigEndianRoundTrip(v / 256, n - 1);
      assert s[..n - 1] == BigEndian(v / 256, n - 1);
      SplitModulo(v, p);
    } else {
      assert v % 1 == 0;
    }
  }

  /** Reading then writing gives the bytes back: no two byte strings of one width mean the same number. */
  lemma {:induction false} FromBigEndianRoundTrip(s: seq<byte>)
    ensures BigEndian(FromBigEndian(s), |s|) == s
    ensures FromBigEndian(s) < Power256(|s|)
    decreases |s|
  {
    if s != [] {
      FromBigEndianRoundTrip(s[..|s| - 1]);
      assert s == s[..|s| - 1] + [s[|s| - 1]];
    }
  }

  lemma LittleEndianRoundTrip(v: nat, n: nat)
    ensures FromLittleEndian(LittleEndian(v, n)) == v % Power256(n)
  {
    BigEndianRoundTrip(v, n);
    assert Reverse(LittleEndian(v, n)) == BigEndian(v, n);
  }

  lemma FromLittleEndianRoundTrip(s: seq<byte>)
    ensures LittleEndian(FromLittleEndian(s), |s|) == s
    ensures FromLittleEndian(s) < Power256(|s|)
  {
    FromBigEndianRoundTrip(Reverse(s));
    assert Reverse(Reverse(s)) == s;
  }
}
