/** The 64-bit frame sequence counter and its wrap-around arithmetic. */
module FrameSeq {

  const TWO64: int := 0x1_0000_0000_0000_0000

  newtype uint64 = x: int | 0 <= x < 0x1_0000_0000_0000_0000

  const MaxFrameSeq: uint64 := 0xFFFF_FFFF_FFFF_FFFF

  /** The value an unsigned 64-bit pre-increment produces. */
  function Next(s: uint64): (r: uint64)
    ensures r as int == (s as int + 1) % TWO64
    ensures s < MaxFrameSeq ==> r > s
  {
    if s == MaxFrameSeq then 0 else s + 1
  }

  /** The counter after k increments starting from s. */
  function Advance(s: uint64, k: nat): (r: uint64)
    decreases k
  {
    if k == 0 then s else Next(Advance(s, k - 1))
  }

  lemma ModOfDecomposition(x: int, q: int, r: int)
    requires x == q * TWO64 + r && 0 <= r < TWO64
    ensures x % TWO64 == r
  {
  }

  /** k increments advance the counter by k modulo 2^64. */
  lemma {:induction false} AdvanceModular(s: uint64, k: nat)
    ensures Advance(s, k) as int == (s as int + k) % TWO64
  {
    if k == 0 {
      ModOfDecomposition(s as int, 0, s as int);
    } else {
      AdvanceModular(s, k - 1);
      var a := Advance(s, k - 1) as int;
      var q := (s as int + k - 1) / TWO64;
      assert s as int + k - 1 == q * TWO64 + a;
      if a == TWO64 - 1 {
        ModOfDecomposition(s as int + k, q + 1, 0);
      } else {
        ModOfDecomposition(s as int + k, q, a + 1);
      }
    }
  }

  /** Without wrap-around, the counter after k increments is exactly s + k: it never
      decreases and each increment adds one. */
  lemma AdvanceWithoutWrap(s: uint64, k: nat)
    requires s as int + k < TWO64
    ensures Advance(s, k) as int == s as int + k
  {
    AdvanceModular(s, k);
    ModOfDecomposition(s as int + k, 0, s as int + k);
  }

  /** After 2^64 increments the counter is back where it started. */
  lemma AdvanceFullCycle(s: uint64)
    ensures Advance(s, TWO64) == s
  {
    AdvanceModular(s, TWO64);
    ModOfDecomposition(s as int + TWO64, 1, s as int);
  }
}
