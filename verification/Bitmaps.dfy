/** Bytes as eight flags each, and a byte array as a set of frame numbers. */
module Bitmaps {

  const BITMAP_BYTES := 131072
  const TOTAL := 1048576

  /** `1 << k`. */
  function Mask(k: nat): (m: bv8)
    requires k < 8
  {
    if k == 0 then 1 else if k == 1 then 2 else if k == 2 then 4 else if k == 3 then 8
    else if k == 4 then 16 else if k == 5 then 32 else if k == 6 then 64 else 128
  }

  predicate Bit(b: bv8, k: nat)
    requires k < 8
  {
    b & Mask(k) != 0
  }

  lemma SetBit(b: bv8, j: nat, k: nat)
    requires j < 8 && k < 8
    ensures Bit(b | Mask(j), k) == (k == j || Bit(b, k))
  {
  }

  lemma ClearBit(b: bv8, j: nat, k: nat)
    requires j < 8 && k < 8
    ensures Bit(b & !Mask(j), k) == (k != j && Bit(b, k))
  {
  }

  predicate IsSet(bm: seq<bv8>, i: nat)
    requires i < 8 * |bm|
  {
    Bit(bm[i / 8], i % 8)
  }

  // ---- counting ------------------------------------------------------------

  /** How many of the lowest `k` bits are set. */
  function Ones(b: bv8, k: nat): (n: nat)
    requires k <= 8
  {
    if k == 0 then 0 else Ones(b, k - 1) + if Bit(b, k - 1) then 1 else 0
  }

  /** How many of the first `n` positions are set. */
  ghost function SetBelow(bm: seq<bv8>, n: nat): (c: nat)
    requires n <= 8 * |bm|
  {
    if n == 0 then 0 else SetBelow(bm, n - 1) + if IsSet(bm, n - 1) then 1 else 0
  }

  /** Counting byte by byte counts the positions. */
  lemma {:induction false} CountByte(bm: seq<bv8>, j: nat, k: nat)
    requires j < |bm| && k <= 8
    ensures SetBelow(bm, 8 * j + k) == SetBelow(bm, 8 * j) + Ones(bm[j], k)
  {
    if k > 0 {
      CountByte(bm, j, k - 1);
      assert (8 * j + k - 1) / 8 == j && (8 * j + k - 1) % 8 == k - 1;
    }
  }

  /** Counting the positions counts the members. */
  lemma {:induction false} CountMembers(bm: seq<bv8>, s: set<nat>, n: nat)
    requires n <= 8 * |bm|
    requires forall i | i in s :: i < n
    requires forall i: nat | i < n && Position(i) :: i in s <==> IsSet(bm, i)
    ensures |s| == SetBelow(bm, n)
  {
    if n == 0 {
      assert s == {};
    } else {
      assert Position(n - 1);
      CountMembers(bm, s - {n - 1}, n - 1);
    }
  }

  /** Names a position at which the array and the set are to be compared. */
  ghost predicate Position(i: nat) { true }

  /** A fixed array of bytes used as a set of frame numbers. */
  class Bitmap {
    const bytes: array<bv8>
    ghost var members: set<nat>

    ghost predicate Valid()
      reads this, bytes
    {
      && bytes.Length == BITMAP_BYTES
      && (forall i | i in members :: i < TOTAL)
      && forall i: nat {:trigger Position(i)} | i < TOTAL && Position(i) :: i in members <==> IsSet(bytes[..], i)
    }

    constructor ()
      ensures Valid() && members == {} && fresh(bytes)
    {
      bytes := new bv8[BITMAP_BYTES](_ => 0);
      members := {};
    }

    method Has(i: nat) returns (b: bool)
      requires Valid() && i < TOTAL
      ensures b <==> i in members
    {
      assert Position(i);
      b := bytes[i / 8] & Mask(i % 8) != 0;
    }

    method Set(i: nat)
      requires Valid() && i < TOTAL
      modifies this, bytes
      ensures Valid() && members == old(members) + {i}
    {
      ghost var before := bytes[..];
      bytes[i / 8] := bytes[i / 8] | Mask(i % 8);
      members := members + {i};
      forall k: nat | k < TOTAL && Position(k)
        ensures IsSet(bytes[..], k) == (k == i || IsSet(before, k))
      {
        if k / 8 == i / 8 { SetBit(before[i / 8], i % 8, k % 8); }
      }
    }

    method Clear(i: nat)
      requires Valid() && i < TOTAL
      modifies this, bytes
      ensures Valid() && members == old(members) - {i}
    {
      ghost var before := bytes[..];
      bytes[i / 8] := bytes[i / 8] & !Mask(i % 8);
      members := members - {i};
      forall k: nat | k < TOTAL && Position(k)
        ensures IsSet(bytes[..], k) == (k != i && IsSet(before, k))
      {
        if k / 8 == i / 8 { ClearBit(before[i / 8], i % 8, k % 8); }
      }
    }

    method Count() returns (n: nat)
      requires Valid()
      ensures n == |members|
    {
      n := 0;
      for j := 0 to BITMAP_BYTES
        invariant n == SetBelow(bytes[..], 8 * j)
      {
        CountByte(bytes[..], j, 8);
        n := n + Ones(bytes[j], 8);
      }
      CountMembers(bytes[..], members, TOTAL);
    }
  }
}
