/** Descriptor sets as `select` stores them: descriptor `fd` is bit `fd % 8` of byte `fd / 8`. */
module FdBits {
  type Byte = bv8

  function Mask(i: nat): Byte
    requires i < 8
  {
    if i == 0 then 0x01 else if i == 1 then 0x02 else if i == 2 then 0x04 else if i == 3 then 0x08
    else if i == 4 then 0x10 else if i == 5 then 0x20 else if i == 6 then 0x40 else 0x80
  }

  predicate Has(b: Byte, i: nat)
    requires i < 8
  {
    b & Mask(i) != 0
  }

  function Fds(bytes: seq<Byte>): set<nat> {
    set fd: nat | fd < 8 * |bytes| && Has(bytes[fd / 8], fd % 8)
  }

  function With(bytes: seq<Byte>, fd: nat): seq<Byte>
    requires fd < 8 * |bytes|
  {
    bytes[fd / 8 := bytes[fd / 8] | Mask(fd % 8)]
  }

  /** Descriptor `fd` is bit `fd % 8`, counted from the least significant one, of byte `fd / 8`. */
  lemma FdIsBit(bytes: seq<Byte>, fd: nat)
    ensures fd in Fds(bytes) <==> fd < 8 * |bytes| && (bytes[fd / 8] >> (fd % 8)) & 1 == 1
  {
    if fd < 8 * |bytes| {
      HasIsBit(bytes[fd / 8], fd % 8);
    }
  }

  lemma HasIsBit(b: Byte, i: nat)
    requires i < 8
    ensures Has(b, i) <==> (b >> i) & 1 == 1
  {
    assert i == 0 || i == 1 || i == 2 || i == 3 || i == 4 || i == 5 || i == 6 || i == 7;
  }

  lemma SetBit(b: Byte, i: nat, j: nat)
    requires i < 8 && j < 8
    ensures Has(b | Mask(i), j) <==> Has(b, j) || i == j
  {
  }

  lemma WithAdds(bytes: seq<Byte>, fd: nat)
    requires fd < 8 * |bytes|
    ensures Fds(With(bytes, fd)) == Fds(bytes) + {fd}
  {
    forall j: nat | j < 8 * |bytes|
      ensures j in Fds(With(bytes, fd)) <==> j in Fds(bytes) || j == fd
    {
      if j / 8 == fd / 8 {
        SetBit(bytes[fd / 8], fd % 8, j % 8);
        assert j == 8 * (j / 8) + j % 8 && fd == 8 * (fd / 8) + fd % 8;
      }
    }
  }

  lemma NoFds(bytes: seq<Byte>)
    requires forall i :: 0 <= i < |bytes| ==> bytes[i] == 0
    ensures Fds(bytes) == {}
  {
  }

  /** Cutting a set after `size` bytes keeps the descriptors below `8 * size`. */
  lemma PrefixFds(bytes: seq<Byte>, size: nat)
    requires size <= |bytes|
    ensures Fds(bytes[..size]) == set fd | fd in Fds(bytes) && fd < 8 * size
  {
  }

  /** Number of one bits among the lowest `n`. */
  function Ones(b: Byte, n: nat): nat
    requires n <= 8
  {
    if n == 0 then 0 else Ones(b, n - 1) + if Has(b, n - 1) then 1 else 0
  }

  function LowBits(b: Byte, n: nat): set<nat>
    requires n <= 8
  {
    set i: nat | i < n && Has(b, i)
  }

  lemma LowBitsNext(b: Byte, n: nat, low: set<nat>)
    requires 0 < n <= 8 && low == LowBits(b, n - 1)
    ensures LowBits(b, n) == if Has(b, n - 1) then low + {n - 1} else low
  {
  }

  lemma {:induction false} OnesCounts(b: Byte, n: nat)
    requires n <= 8
    ensures Ones(b, n) == |LowBits(b, n)|
  {
    if n > 0 {
      OnesCounts(b, n - 1);
      LowBitsNext(b, n, LowBits(b, n - 1));
    }
  }

  lemma ClearedAt(bytes: seq<Byte>, fd: nat)
    requires bytes != []
    ensures fd in Fds(bytes[0 := bytes[0] & 0xE0]) <==> fd in Fds(bytes) && fd >= 5
    ensures fd in LowBits(bytes[0] & 0x1F, 8) <==> fd in Fds(bytes) && fd < 5
  {
  }

  /** Clearing bits 0 to 4 of the first byte removes exactly the descriptors below 5, `count_ones` of them. */
  lemma ClearLowFive(bytes: seq<Byte>)
    requires bytes != []
    ensures Fds(bytes[0 := bytes[0] & 0xE0]) == set fd | fd in Fds(bytes) && fd >= 5
    ensures |Fds(bytes)| == |Fds(bytes[0 := bytes[0] & 0xE0])| + Ones(bytes[0] & 0x1F, 8)
  {
    var high, low := Fds(bytes[0 := bytes[0] & 0xE0]), LowBits(bytes[0] & 0x1F, 8);
    forall fd: nat
      ensures fd in high <==> fd in Fds(bytes) && fd >= 5
      ensures fd in low <==> fd in Fds(bytes) && fd < 5
    {
      ClearedAt(bytes, fd);
    }
    OnesCounts(bytes[0] & 0x1F, 8);
    assert Fds(bytes) == high + low && high !! low;
  }
}
