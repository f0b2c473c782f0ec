/** Little-endian integers as byte sequences, as x86 stores them. */
module LittleEndian {
  type Byte = x: int | 0 <= x < 256

  function Pow256(k: nat): (p: nat)
    ensures p > 0
  {
    if k == 0 then 1 else 256 * Pow256(k - 1)
  }

  /** The low `k` bytes of `n`, least significant first. */
  function ToBytes(n: nat, k: nat): (s: seq<Byte>)
    ensures |s| == k
  {
    if k == 0 then [] else [n % 256] + ToBytes(n / 256, k - 1)
  }

  function FromBytes(s: seq<Byte>): nat {
    if s == [] then 0 else s[0] + 256 * FromBytes(s[1..])
  }

  lemma {:induction false} RoundTrip(n: nat, k: nat)
    requires n < Pow256(k)
    ensures FromBytes(ToBytes(n, k)) == n
  {
    if k > 0 {
      RoundTrip(n / 256, k - 1);
      assert ToBytes(n, k)[1..] == ToBytes(n / 256, k - 1);
    }
  }

  lemma Widths()
    ensures Pow256(2) == 0x1_0000 && Pow256(4) == 0x1_0000_0000 && Pow256(8) == 0x1_0000_0000_0000_0000
  {
  }

  /** A field of `s`, `k` bytes wide. */
  function Field(s: seq<Byte>, at: nat, k: nat): nat
    requires at + k <= |s|
  {
    FromBytes(s[at..at + k])
  }

  lemma {:induction false} FieldOf(before: seq<Byte>, n: nat, k: nat, rest: seq<Byte>)
    requires n < Pow256(k)
    ensures Field(before + ToBytes(n, k) + rest, |before|, k) == n
  {
    RoundTrip(n, k);
    assert (before + ToBytes(n, k) + rest)[|before|..|before| + k] == ToBytes(n, k);
  }
}
