/** Difficulty-mask helpers of the BM1397 driver: `largestPowerOfTwo`,
    `reverseBits` and the ticket-mask command of `set_job_difficulty_mask`. */
module Bm1397Mask {
  import opened Base
  import opened Bm1397Protocol

  /** The number of halvings `largestPowerOfTwo` performs: the exponent of
      the largest power of two not above `num` (0 for `num <= 1`). */
  function FloorLog2(num: int): (k: nat)
    ensures num <= 1 ==> k == 0
    ensures num > 1 ==> k >= 1 && Pow2(k) <= num < Pow2(k + 1)
    decreases num
  {
    if num <= 1 then 0
    else
      var k := FloorLog2(num / 2) + 1;
      assert Pow2(k) == 2 * Pow2(k - 1) && Pow2(k + 1) == 2 * Pow2(k);
      k
  }

  /** `largestPowerOfTwo`: `1 << power` after shifting `num` right until it
      is at most 1. */
  function LargestPowerOfTwo(num: int): (p: nat)
    ensures num <= 1 ==> p == 1
    ensures num > 1 ==> p <= num < 2 * p
  {
    Pow2(FloorLog2(num))
  }

  /** The loop of `largestPowerOfTwo` as written, for a C `int` argument. */
  method LargestPowerOfTwoLoop(num: int32) returns (p: int)
    ensures p == LargestPowerOfTwo(num)
    ensures num <= 1 ==> p == 1
    ensures num > 1 ==> p <= num < 2 * p
  {
    var n: int := num;
    var power: nat := 0;
    while n > 1
      invariant FloorLog2(n) + power == FloorLog2(num)
      invariant num <= 1 ==> n == num
      decreases n
    {
      n := n / 2;  // `num >> 1` on a positive value
      power := power + 1;
    }
    p := Pow2(power);
  }

  /** The mask `set_job_difficulty_mask` computes: `largestPowerOfTwo(d) - 1`. */
  function DifficultyMask(difficulty: int): int {
    LargestPowerOfTwo(difficulty) - 1
  }

  /** The mask is `2^k - 1`: the bits below `k` are all set and none above,
      so it has no holes. */
  lemma {:induction false} MaskHasNoHoles(difficulty: int, i: nat)
    ensures var k := FloorLog2(difficulty);
      && DifficultyMask(difficulty) == Pow2(k) - 1
      && (Bit(DifficultyMask(difficulty), i) <==> i < k)
  {
    OnesBelow(FloorLog2(difficulty), i);
  }

  lemma {:induction false} OnesBelow(k: nat, i: nat)
    ensures Bit(Pow2(k) - 1, i) <==> i < k
  {
    if k == 0 {
      ZeroHasNoBits(i);
    } else if i > 0 {
      assert (Pow2(k) - 1) / 2 == Pow2(k - 1) - 1;
      OnesBelow(k - 1, i - 1);
    }
  }

  lemma {:induction false} ZeroHasNoBits(i: nat)
    ensures !Bit(0, i)
  {
    if i > 0 {
      ZeroHasNoBits(i - 1);
    }
  }

  /** `FloorLog2` is the unique exponent bracketing its argument. */
  lemma {:induction false} FloorLog2Unique(n: int, k: nat)
    requires Pow2(k) <= n < Pow2(k + 1)
    ensures FloorLog2(n) == k
  {
    if k > 0 {
      FloorLog2Unique(n / 2, k - 1);
    }
  }

  /** The values the source comments give: 256 -> 0xFF, 512 -> 0x1FF, 300 -> 0xFF. */
  lemma MaskExamples()
    ensures DifficultyMask(256) == 0xFF
    ensures DifficultyMask(512) == 0x1FF
    ensures DifficultyMask(300) == 0xFF
  {
    assert Pow2(8) == 256 && Pow2(9) == 512 && Pow2(10) == 1024;
    FloorLog2Unique(256, 8);
    FloorLog2Unique(300, 8);
    FloorLog2Unique(512, 9);
  }

  // ---------------------------------------------------------------------
  // reverseBits

  /** Bit `i` of an 8-bit value. */
  function BitOf(x: bv8, i: nat): bv8
    requires i < 8
  {
    (x >> i) & 1
  }

  /** `reverseBits`: bit `i` of the input becomes bit `7 - i`. */
  function ReverseBits(num: bv8): (r: bv8)
    ensures forall i: nat :: i < 8 ==> BitOf(r, i) == BitOf(num, 7 - i)
  {
    ((num & 0x01) << 7) | ((num & 0x02) << 5) | ((num & 0x04) << 3) | ((num & 0x08) << 1)
    | ((num & 0x10) >> 1) | ((num & 0x20) >> 3) | ((num & 0x40) >> 5) | ((num & 0x80) >> 7)
  }

  /** The loop of `reverseBits` as written: shift the result left, move the
      low bit of `num` in, shift `num` right, eight times. */
  method ReverseBitsLoop(num0: bv8) returns (reversed: bv8)
    ensures reversed == ReverseBits(num0)
  {
    var num := num0;
    reversed := 0;
    var i: bv8 := 0;
    while i < 8
      invariant i <= 8
      invariant num == num0 >> i
      // after i rounds the result holds the top i bits of the reversal
      invariant reversed == ReverseBits(num0) >> (8 - i)
    {
      reversed := reversed << 1;
      reversed := reversed | (num & 1);
      num := num >> 1;
      i := i + 1;
    }
  }

  lemma BitsDetermineByte(a: bv8, b: bv8)
    requires forall i: nat :: i < 8 ==> BitOf(a, i) == BitOf(b, i)
    ensures a == b
  {
    assert BitOf(a, 0) == BitOf(b, 0) && BitOf(a, 1) == BitOf(b, 1);
    assert BitOf(a, 2) == BitOf(b, 2) && BitOf(a, 3) == BitOf(b, 3);
    assert BitOf(a, 4) == BitOf(b, 4) && BitOf(a, 5) == BitOf(b, 5);
    assert BitOf(a, 6) == BitOf(b, 6) && BitOf(a, 7) == BitOf(b, 7);
  }

  /** Reversing twice gives the byte back. */
  lemma ReverseBitsInvolution(x: bv8)
    ensures ReverseBits(ReverseBits(x)) == x
  {
    var y := ReverseBits(ReverseBits(x));
    forall i: nat | i < 8
      ensures BitOf(y, i) == BitOf(x, i)
    {
      assert BitOf(y, i) == BitOf(ReverseBits(x), 7 - i) == BitOf(x, 7 - (7 - i));
    }
    BitsDetermineByte(y, x);
  }

  // ---------------------------------------------------------------------
  // set_job_difficulty_mask

  /** Register 0x14 (ticket_mask) payload for difficulty 256, the only one sent. */
  const TICKET_MASK_PAYLOAD: seq<byte> := [0x00, 0x14, 0x00, 0x00, 0x00, 0xFF]

  /** `set_job_difficulty_mask`: the mask is computed but the assignment of its
      bytes into the payload is commented out, so the default payload is sent. */
  function SetJobDifficultyMask(difficulty: int32): (c: Command)
    ensures c.header == MakeHeader(TYPE_CMD, GROUP_ALL, CMD_WRITE)
    ensures c.payload == TICKET_MASK_PAYLOAD
  {
    var mask := DifficultyMask(difficulty);
    Command(MakeHeader(TYPE_CMD, GROUP_ALL, CMD_WRITE), TICKET_MASK_PAYLOAD)
  }

  /** Whatever difficulty is requested, the chip receives the same command,
      and that command carries the mask of difficulty 256 (big-endian, last byte 0xFF). */
  lemma DifficultyIgnored(d1: int32, d2: int32)
    ensures SetJobDifficultyMask(d1) == SetJobDifficultyMask(d2)
    ensures var p := SetJobDifficultyMask(d1).payload;
      (p[2] as int) * 0x100_0000 + (p[3] as int) * 0x1_0000 + (p[4] as int) * 0x100 + (p[5] as int) == DifficultyMask(256)
  {
    MaskExamples();
  }
}
