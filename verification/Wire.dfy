/** Little-endian fields at fixed offsets of a byte buffer. */
module Wire {
  import opened Machine

  type Bytes8 = s: seq<byte> | |s| == 8 witness [0, 0, 0, 0, 0, 0, 0, 0]
  type Bytes16 = s: seq<byte> | |s| == 16 witness seq(16, i => 0)
  type Bytes32 = s: seq<byte> | |s| == 32 witness seq(32, i => 0)

  ghost function Pow256(n: nat): nat {
    if n == 0 then 1 else 256 * Pow256(n - 1)
  }

  function FromLE(s: seq<byte>): nat {
    if s == [] then 0 else s[0] + 256 * FromLE(s[1..])
  }

  function LE(v: nat, n: nat): (s: seq<byte>)
    ensures |s| == n
  {
    if n == 0 then [] else [v % 256] + LE(v / 256, n - 1)
  }

  lemma {:induction false} FromLEOfLE(v: nat, n: nat)
    requires v < Pow256(n)
    ensures FromLE(LE(v, n)) == v
  {
    if n > 0 {
      FromLEOfLE(v / 256, n - 1);
      assert LE(v, n)[1..] == LE(v / 256, n - 1);
    }
  }

  lemma {:induction false} LEOfFromLE(s: seq<byte>)
    ensures FromLE(s) < Pow256(|s|) && LE(FromLE(s), |s|) == s
  {
    if s != [] {
      LEOfFromLE(s[1..]);
      assert FromLE(s) / 256 == FromLE(s[1..]) && FromLE(s) % 256 == s[0];
    }
  }

  lemma WidthBounds()
    ensures Pow256(2) == 0x1_0000 && Pow256(4) == 0x1_0000_0000 && Pow256(8) == 0x1_0000_0000_0000_0000
    ensures Pow256(16) == 0x1_0000_0000_0000_0000_0000_0000_0000_0000
  {
    assert Pow256(4) == 65536 * Pow256(2);
    assert Pow256(6) == 65536 * Pow256(4);
    assert Pow256(8) == 65536 * Pow256(6);
    assert Pow256(10) == 65536 * Pow256(8);
    assert Pow256(12) == 65536 * Pow256(10);
    assert Pow256(14) == 65536 * Pow256(12);
  }

  function U16Bytes(v: u16): (s: seq<byte>)
    ensures |s| == 2 && FromLE(s) == v
  {
    WidthBounds();
    FromLEOfLE(v, 2);
    LE(v, 2)
  }

  function U32Bytes(v: u32): (s: seq<byte>)
    ensures |s| == 4 && FromLE(s) == v
  {
    WidthBounds();
    FromLEOfLE(v, 4);
    LE(v, 4)
  }

  function U64Bytes(v: u64): (s: seq<byte>)
    ensures |s| == 8 && FromLE(s) == v
  {
    WidthBounds();
    FromLEOfLE(v, 8);
    LE(v, 8)
  }

  function U128Bytes(v: u128): (s: seq<byte>)
    ensures |s| == 16 && FromLE(s) == v
  {
    WidthBounds();
    FromLEOfLE(v, 16);
    LE(v, 16)
  }

  function GetU16(b: seq<byte>, offset: nat): (v: u16)
    requires offset + 2 <= |b|
    ensures U16Bytes(v) == b[offset..offset + 2]
  {
    WidthBounds();
    LEOfFromLE(b[offset..offset + 2]);
    FromLE(b[offset..offset + 2])
  }

  function GetU32(b: seq<byte>, offset: nat): (v: u32)
    requires offset + 4 <= |b|
    ensures U32Bytes(v) == b[offset..offset + 4]
  {
    WidthBounds();
    LEOfFromLE(b[offset..offset + 4]);
    FromLE(b[offset..offset + 4])
  }

  function GetU64(b: seq<byte>, offset: nat): (v: u64)
    requires offset + 8 <= |b|
    ensures U64Bytes(v) == b[offset..offset + 8]
  {
    WidthBounds();
    LEOfFromLE(b[offset..offset + 8]);
    FromLE(b[offset..offset + 8])
  }

  function GetU128(b: seq<byte>, offset: nat): (v: u128)
    requires offset + 16 <= |b|
    ensures U128Bytes(v) == b[offset..offset + 16]
  {
    WidthBounds();
    LEOfFromLE(b[offset..offset + 16]);
    FromLE(b[offset..offset + 16])
  }

  function Zeros(n: nat): (s: seq<byte>)
    ensures |s| == n
  {
    seq(n, i => 0)
  }

  /** The bytes `s` stand at `offset` of `b`. */
  predicate At(b: seq<byte>, offset: nat, s: seq<byte>) {
    offset + |s| <= |b| && b[offset..offset + |s|] == s
  }

  predicate ZeroRange(b: seq<byte>, lo: nat, hi: nat) {
    lo <= hi <= |b| && forall i :: lo <= i < hi ==> b[i] == 0
  }

  predicate IsZero(s: seq<byte>) {
    forall i :: 0 <= i < |s| ==> s[i] == 0
  }

  predicate HasNonZero(s: seq<byte>) {
    exists i :: 0 <= i < |s| && s[i] != 0
  }

  lemma AtZeros(b: seq<byte>, offset: nat, n: nat)
    requires At(b, offset, Zeros(n))
    ensures ZeroRange(b, offset, offset + n)
  {
    forall i | offset <= i < offset + n ensures b[i] == 0 {
      assert b[i] == b[offset..offset + n][i - offset];
    }
  }

  lemma ZeroWord()
    ensures U32Bytes(0) == Zeros(4)
  {
    assert LE(0, 4) == [0] + LE(0, 3) && LE(0, 3) == [0] + LE(0, 2) && LE(0, 2) == [0] + LE(0, 1);
  }

  /** `b` with `s` copied over it at `offset`; everything outside stays. */
  function Put(b: seq<byte>, offset: nat, s: seq<byte>): (r: seq<byte>)
    requires offset + |s| <= |b|
    ensures |r| == |b| && At(r, offset, s)
    ensures forall o: nat, t: seq<byte> {:trigger At(b, o, t)} ::
              At(b, o, t) && (o + |t| <= offset || offset + |s| <= o) ==> At(r, o, t)
    ensures forall lo: nat, hi: nat {:trigger ZeroRange(b, lo, hi)} ::
              ZeroRange(b, lo, hi) && (hi <= offset || offset + |s| <= lo) ==> ZeroRange(r, lo, hi)
  {
    var r := b[..offset] + s + b[offset + |s|..];
    assert forall o: nat, t: seq<byte> {:trigger At(b, o, t)} ::
        At(b, o, t) && (o + |t| <= offset || offset + |s| <= o) ==> r[o..o + |t|] == b[o..o + |t|];
    r
  }

  /** Buffers that hold the same bytes at a place agree there. */
  lemma SameAt(a: seq<byte>, b: seq<byte>, offset: nat, s: seq<byte>)
    requires At(a, offset, s) && At(b, offset, s)
    ensures forall i :: offset <= i < offset + |s| ==> a[i] == b[i]
  {
    forall i | offset <= i < offset + |s|
      ensures a[i] == b[i]
    {
      assert a[i] == a[offset..offset + |s|][i - offset];
      assert b[i] == b[offset..offset + |s|][i - offset];
    }
  }

  lemma InsideAt(b: seq<byte>, start: nat, s: seq<byte>, offset: nat, t: seq<byte>)
    requires At(b, start, s) && At(s, offset, t)
    ensures At(b, start + offset, t)
  {
    forall i | 0 <= i < |t| ensures b[start + offset + i] == t[i] {
      assert s[offset + i] == s[offset..offset + |t|][i];
      assert b[start + offset + i] == b[start..start + |s|][offset + i];
    }
  }

  lemma PrefixKeeps(b: seq<byte>, n: nat)
    requires n <= |b|
    ensures forall o: nat, t: seq<byte> {:trigger At(b, o, t)} ::
              At(b, o, t) && o + |t| <= n ==> At(b[..n], o, t)
    ensures forall lo: nat, hi: nat {:trigger ZeroRange(b, lo, hi)} ::
              ZeroRange(b, lo, hi) && hi <= n ==> ZeroRange(b[..n], lo, hi)
  {
    forall o: nat, t: seq<byte> | At(b, o, t) && o + |t| <= n
      ensures At(b[..n], o, t)
    {
      assert b[..n][o..o + |t|] == b[o..o + |t|];
    }
  }

  method PutBytes(destination: array<byte>, offset: nat, s: seq<byte>)
    requires offset + |s| <= destination.Length
    modifies destination
    ensures destination[..] == Put(old(destination[..]), offset, s)
  {
    for i := 0 to |s|
      invariant destination[..] == Put(old(destination[..]), offset, s[..i])
    {
      destination[offset + i] := s[i];
    }
    assert s[..|s|] == s;
  }
}
