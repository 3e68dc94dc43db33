/** ArduinoJson: the rounding shared by both memory arenas, for 4-byte pointers and a 32-bit size_t. */
module JsonBuffer {
  import opened Bytes

  const WORD: nat := 4

  // No object reaches into the last word of the address space, so a capacity leaves room to round.
  const MAX_CAPACITY: nat := U32_LIMIT - WORD

  // a & b, bit by bit
  function BitAnd(a: nat, b: nat): nat {
    if a == 0 || b == 0 then 0 else 2 * BitAnd(a / 2, b / 2) + (a % 2) * (b % 2)
  }

  // ~a on a machine word
  function BitNot(a: nat): nat
    requires a < U32_LIMIT
  {
    U32_LIMIT - 1 - a
  }

  /** round_size_up: the sum wraps around before its two low bits are cleared. */
  function RoundSizeUp(bytes: nat): nat {
    var sum := (bytes + (WORD - 1)) % U32_LIMIT;
    sum - sum % WORD
  }

  function Ones(k: nat): nat {
    if k == 0 then 0 else 2 * Ones(k - 1) + 1
  }

  lemma {:induction false} AndOnes(a: nat, k: nat)
    requires a <= Ones(k)
    ensures BitAnd(a, Ones(k)) == a
  {
    if a > 0 {
      AndOnes(a / 2, k - 1);
    }
  }

  /** The masking expression of the code is this rounding. */
  lemma MaskRounds(bytes: nat)
    ensures BitAnd((bytes + (WORD - 1)) % U32_LIMIT, BitNot(WORD - 1)) == RoundSizeUp(bytes)
  {
    var sum := (bytes + (WORD - 1)) % U32_LIMIT;
    ThirtyOnes();
    assert BitNot(WORD - 1) == 4 * Ones(30);
    AndOnes(sum / 4, 30);
    ClearTwoBits(sum, Ones(30));
  }

  lemma ThirtyOnes()
    ensures Ones(30) == 0x3FFF_FFFF
  {
    assert Ones(10) == 0x3FF;
    assert Ones(20) == 0xF_FFFF;
  }

  lemma ClearTwoBits(a: nat, m: nat)
    ensures BitAnd(a, 4 * m) == 4 * BitAnd(a / 4, m)
  {
    assert BitAnd(a, 4 * m) == 2 * BitAnd(a / 2, 2 * m);
    assert BitAnd(a / 2, 2 * m) == 2 * BitAnd(a / 2 / 2, m);
    assert a / 2 / 2 == a / 4;
  }

  // without wrap-around the result is the least multiple of the word size that is not below
  lemma RoundsToNextWord(bytes: nat)
    requires bytes <= MAX_CAPACITY
    ensures RoundSizeUp(bytes) % WORD == 0
    ensures bytes <= RoundSizeUp(bytes) < bytes + WORD
    ensures RoundSizeUp(bytes) <= MAX_CAPACITY
  {}

  lemma RoundsToLeast(bytes: nat, multiple: nat)
    requires bytes <= multiple <= MAX_CAPACITY && multiple % WORD == 0
    ensures RoundSizeUp(bytes) <= multiple
  {
    RoundsToNextWord(bytes);
  }
}
