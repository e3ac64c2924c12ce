/** Streaming SHA-256: bytes arrive in pieces of any size. */
module Sha256 {
  import opened Sha256Spec

  const WORD64 := 0x1_0000_0000_0000_0000

  class Sha256 {
    var state: Vars
    const buf: array<bv8>
    var bufLen: nat
    var total: nat
    ghost var whole: Octets

    /** The bytes taken so far: whole blocks, then what the buffer holds. */
    ghost function Message(): (m: Octets)
      requires bufLen <= buf.Length
      reads this, buf
    {
      whole + buf[..bufLen]
    }

    ghost predicate Valid()
      reads this, buf
    {
      && buf.Length == 64 && bufLen < 64 && |whole| % 64 == 0 && state == Absorb(H0, whole)
      && total == |Message()| % WORD64
    }

    constructor ()
      ensures Valid() && Message() == [] && fresh(buf)
    {
      state, bufLen, total, whole := H0, 0, 0, [];
      buf := new bv8[64](_ => 0);
    }

    /** The message schedule, in an array. */
    method Expand(block: Octets) returns (w: array<Word>)
      requires |block| == 64
      ensures fresh(w) && w.Length == 64 && forall t | 0 <= t < 64 :: w[t] == Schedule(block, t)
    {
      hide BigEndian, Sigma0, Sigma1, Plus4;
      w := new Word[64](_ => 0);
      var i := 0;
      while i < 16
        invariant 0 <= i <= 16 && forall t | 0 <= t < i :: w[t] == Schedule(block, t)
      {
        w[i] := BigEndian(block[i * 4], block[i * 4 + 1], block[i * 4 + 2], block[i * 4 + 3]);
        i := i + 1;
      }
      while i < 64
        invariant 16 <= i <= 64 && forall t | 0 <= t < i :: w[t] == Schedule(block, t)
      {
        var s0, s1 := Sigma0(w[i - 15]), Sigma1(w[i - 2]);
        Reorder(w[i - 16], s0, w[i - 7], s1);
        w[i] := Plus4(w[i - 16], s0, w[i - 7], s1);
        i := i + 1;
      }
    }

    /** The 64 rounds, with the variables shifted one by one. */
    method Mix(block: Octets, w: array<Word>) returns (v: Vars)
      requires |block| == 64 && w.Length == 64 && forall t | 0 <= t < 64 :: w[t] == Schedule(block, t)
      ensures v == Rounds(state, block, 64)
    {
      hide BigSigma0, BigSigma1, Ch, Maj, Schedule, Plus, Plus5;
      var Vars(a, b, c, d, e, f, g, h) := state;
      var i := 0;
      while i < 64
        invariant 0 <= i <= 64 && Vars(a, b, c, d, e, f, g, h) == Rounds(state, block, i)
      {
        var t1 := Plus5(h, BigSigma1(e), Ch(e, f, g), K(i), w[i]);
        var t2 := Plus(BigSigma0(a), Maj(a, b, c));
        h := g;
        g := f;
        f := e;
        e := Plus(d, t1);
        d := c;
        c := b;
        b := a;
        a := Plus(t1, t2);
        i := i + 1;
      }
      return Vars(a, b, c, d, e, f, g, h);
    }

    method CompressBlock(block: Octets)
      requires |block| == 64
      modifies this`state
      ensures state == Compress(old(state), block)
    {
      hide Rounds, Plus;
      var w := Expand(block);
      var v := Mix(block, w);
      state := Vars(Plus(state.a, v.a), Plus(state.b, v.b), Plus(state.c, v.c), Plus(state.d, v.d),
                    Plus(state.e, v.e), Plus(state.f, v.f), Plus(state.g, v.g), Plus(state.h, v.h));
    }

    /** The state is that of the whole blocks taken so far. */
    ghost predicate Core()
      reads this
    {
      buf.Length == 64 && |whole| % 64 == 0 && state == Absorb(H0, whole)
    }

    method TakeBlock(block: Octets)
      requires Core() && |block| == 64
      modifies this`state, this`whole
      ensures Core() && whole == old(whole) + block
    {
      hide Compress;
      AbsorbBlock(whole, block);
      CompressBlock(block);
      whole := whole + block;
    }

    /** Copy into the buffer from `at` on. */
    method Store(at: nat, data: Octets)
      requires at + |data| <= buf.Length
      modifies buf
      ensures buf[..at + |data|] == old(buf[..at]) + data
    {
      var i := 0;
      while i < |data|
        invariant 0 <= i <= |data| && buf[..at + i] == old(buf[..at]) + data[..i]
      {
        buf[at + i] := data[i];
        i := i + 1;
      }
    }

    /** Top up a buffer that is not empty. */
    method TopUp(data: Octets) returns (rest: Octets)
      requires Core() && 0 < bufLen < 64
      modifies this`state, this`whole, this`bufLen, buf
      ensures Core() && bufLen < 64 && Message() + rest == old(Message()) + data && (rest != [] ==> bufLen == 0)
    {
      hide Absorb;
      var n := if 64 - bufLen < |data| then 64 - bufLen else |data|;
      Store(bufLen, data[..n]);
      bufLen := bufLen + n;
      rest := data[n..];
      assert whole + buf[..bufLen] + rest == old(Message()) + data by {
        assert data == data[..n] + rest;
      }
      if bufLen == 64 {
        TakeBlock(buf[..]);
        bufLen := 0;
      }
    }

    /** Hash whole blocks straight from the data. */
    method Bulk(data: Octets) returns (rest: Octets)
      requires Core() && bufLen == 0
      modifies this`state, this`whole
      ensures Core() && |rest| < 64 && whole + rest == old(whole) + data
    {
      hide Absorb;
      rest := data;
      while |rest| >= 64
        invariant Core() && whole + rest == old(whole) + data
        decreases |rest|
      {
        assert rest == rest[..64] + rest[64..];
        TakeBlock(rest[..64]);
        rest := rest[64..];
      }
    }

    /** Take the data in, block by block. */
    method Feed(data: Octets)
      requires Core() && bufLen < 64
      modifies this`state, this`whole, this`bufLen, buf
      ensures Core() && bufLen < 64 && Message() == old(Message()) + data
    {
      hide Absorb;
      var rest := data;
      assert Message() + rest == old(Message()) + data;
      if bufLen > 0 { rest := TopUp(data); }
      if rest == [] {
        assert Message() + rest == Message();
        return;
      }
      assert Message() == whole;
      rest := Bulk(rest);
      Store(0, rest);
      bufLen := |rest|;
      assert buf[..bufLen] == rest;
    }

    method Update(data: Octets)
      requires Valid()
      modifies this, buf
      ensures Valid() && Message() == old(Message()) + data
    {
      hide Absorb;
      LengthAdds(|Message()|, |data|);
      Feed(data);
      total := (total + |data|) % WORD64;
    }

    /** Zeros until eight bytes are left in the block. */
    method PadZeros(ghost m: Octets)
      requires Valid() && Message() == m + [0x80]
      modifies this, buf
      ensures Valid() && Message() == m + [0x80] + Zeros(ZeroCount(|m|))
    {
      hide Absorb, ZeroCount;
      ghost var k: nat := 0;
      assert m + [0x80] + Zeros(0) == m + [0x80];
      while bufLen != 56
        invariant Valid() && k <= ZeroCount(|m|) && Message() == m + [0x80] + Zeros(k)
        decreases ZeroCount(|m|) - k
      {
        BufferCounts(|whole|, bufLen, |m| + 1 + k);
        CountReached(|m|, k);
        Update([0]);
        assert Zeros(k + 1) == Zeros(k) + [0];
        assert m + [0x80] + Zeros(k) + [0] == m + [0x80] + Zeros(k + 1);
        k := k + 1;
      }
      BufferCounts(|whole|, bufLen, |m| + 1 + k);
      CountReached(|m|, k);
    }

    /** Pad, and give the digest. For every message FIPS 180-4 allows, however
        it was split into updates, this is its hash. */
    method Finish() returns (out: Octets)
      requires Valid()
      modifies this, buf
      ensures |old(Message())| < WORD64 / 8 ==> out == Hash(old(Message()))
    {
      hide Absorb, Length64, Digest, ZeroCount;
      ghost var m := Message();
      var bits := total * 8 % WORD64;
      if |m| < WORD64 / 8 { BitsFit(|m|); }
      Update([0x80]);
      PadZeros(m);
      Update(Length64(bits));
      if |m| < WORD64 / 8 {
        PaddedBlocks(m);
        BufferCounts(|whole|, bufLen, |Padded(m)|);
        assert whole == Message();
      }
      out := Digest(state);
    }
  }

  lemma BitsFit(n: nat)
    requires n < WORD64 / 8
    ensures n % WORD64 * 8 % WORD64 == 8 * n
  {
  }

  lemma AbsorbBlock(whole: Octets, block: Octets)
    requires |whole| % 64 == 0 && |block| == 64
    ensures Absorb(H0, whole + block) == Compress(Absorb(H0, whole), block)
  {
    hide Compress;
    AbsorbSplit(H0, whole, block);
    assert block[..64] == block && block[64..] == [];
  }

  lemma LengthAdds(a: nat, b: nat)
    ensures (a % WORD64 + b) % WORD64 == (a + b) % WORD64
  {
  }

  /** The buffer holds what is left of the blocks. */
  lemma BufferCounts(whole: nat, bufLen: nat, n: nat)
    requires whole % 64 == 0 && bufLen < 64 && whole + bufLen == n
    ensures bufLen == n % 64
  {
  }

  lemma CountReached(n: nat, k: nat)
    requires k <= ZeroCount(n)
    ensures (n + 1 + k) % 64 == 56 <==> k == ZeroCount(n)
  {
  }

  /** The schedule's four terms may be added in any order; the source starts
      with the oldest, the standard with the newest. */
  lemma Reorder(a: Word, b: Word, c: Word, d: Word)
    ensures Plus4(a, b, c, d) == Plus4(d, c, b, a)
  {
  }
}
