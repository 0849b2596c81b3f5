/**
 The choice of flush_block between the three kinds of block, in the number of
 bytes of output up to the end of the block.  The code compares sizes that leave
 out where in a byte the block starts, so its choice is not always the shortest
 one; here is exactly when it is, and how much can be lost.
 */
module BlockChoice {

  /** The number of bytes a block of n bits is taken to need, with its type. */
  function Bytes(n: nat): nat
  {
    (n + 3 + 7) / 8
  }

  function RoundUp(n: nat): nat
  {
    (n + 7) / 8 * 8
  }

  datatype Form = Stored | Fixed | Dynamic

  /** What is compared: the number of bytes stored, if they are at hand, and the two sizes in bits. */
  datatype Sizes = Sizes(hasBuf: bool, stored: nat, fixed: nat, dyn: nat)

  /** The tests of flush_block; a stored block has four bytes more for the two lengths. */
  function Chosen(s: Sizes): Form
  {
    if s.hasBuf && s.stored + 4 <= Bytes(s.fixed) && s.stored + 4 <= Bytes(s.dyn) then Stored
    else if Bytes(s.fixed) <= Bytes(s.dyn) then Fixed
    else Dynamic
  }

  /** Where a block in this form ends that starts at bit before. */
  function EndOf(f: Form, before: nat, s: Sizes): nat
  {
    match f
    case Stored => RoundUp(before + 3) + 32 + 8 * s.stored
    case Fixed => before + 3 + s.fixed
    case Dynamic => before + 3 + s.dyn
  }

  /** The bytes of output up to the end of the block, the last one perhaps in part. */
  function EndBytes(f: Form, before: nat, s: Sizes): nat
  {
    (EndOf(f, before, s) + 7) / 8
  }

  predicate Available(f: Form, s: Sizes)
  {
    f == Stored ==> s.hasBuf
  }

  /** No other form would have ended in an earlier byte. */
  ghost predicate Shortest(before: nat, s: Sizes)
  {
    forall f | Available(f, s) :: EndBytes(Chosen(s), before, s) <= EndBytes(f, before, s)
  }

  /**
   A tree form of n bits ends before the stored one although it was not chosen;
   r is the number of bits already in the last byte. With more than five of them
   the type of a stored block needs a byte of its own.
   */
  predicate StoredTooSoon(r: nat, stored: nat, n: nat)
  {
    n + r < 8 * stored + (if r <= 5 then 30 else 38)
  }

  /**
   The dynamic form was taken to need as many bytes as the fixed one, but only
   the fixed one runs into the next byte.
   */
  predicate FixedTooSoon(r: nat, fixed: nat, dyn: nat)
  {
    (fixed + 2) / 8 == (dyn + 2) / 8 && (dyn + 2) % 8 + r < 8 <= (fixed + 2) % 8 + r
  }

  /** The condition under which the choice is the shortest form. */
  predicate Fair(before: nat, s: Sizes)
  {
    match Chosen(s)
    case Stored => !StoredTooSoon(before % 8, s.stored, s.fixed) && !StoredTooSoon(before % 8, s.stored, s.dyn)
    case Fixed => !FixedTooSoon(before % 8, s.fixed, s.dyn)
    case Dynamic => true
  }

  /** The most bytes the choice can lose. */
  function Loss(f: Form): nat
  {
    match f
    case Stored => 2
    case Fixed => 1
    case Dynamic => 0
  }

  lemma StoredBytes(before: nat, s: Sizes)
    ensures EndBytes(Stored, before, s) == before / 8 + (if before % 8 <= 5 then 1 else 2) + 4 + s.stored
  {}

  lemma TreeBytes(before: nat, n: nat)
    ensures (before + 3 + n + 7) / 8 == before / 8 + (before % 8 + n + 10) / 8
  {}

  /** The choice is the shortest form exactly under the condition. */
  lemma ShortestIff(before: nat, s: Sizes)
    ensures Shortest(before, s) <==> Fair(before, s)
  {
    var r := before % 8;
    StoredBytes(before, s);
    TreeBytes(before, s.fixed);
    TreeBytes(before, s.dyn);
    assert Available(Fixed, s) && Available(Dynamic, s) && (s.hasBuf <==> Available(Stored, s));
    match Chosen(s) {
      case Stored =>
        StoredAgainst(before, s, s.fixed);
        StoredAgainst(before, s, s.dyn);
      case Fixed => FixedAgainst(r, s.fixed, s.dyn);
      case Dynamic =>
    }
  }

  lemma StoredAgainst(before: nat, s: Sizes, n: nat)
    ensures EndBytes(Stored, before, s) <= before / 8 + (before % 8 + n + 10) / 8 <==>
            !StoredTooSoon(before % 8, s.stored, n)
  {
    StoredBytes(before, s);
  }

  lemma FixedAgainst(r: nat, fixed: nat, dyn: nat)
    requires r < 8 && Bytes(fixed) <= Bytes(dyn)
    ensures (r + fixed + 10) / 8 <= (r + dyn + 10) / 8 <==> !FixedTooSoon(r, fixed, dyn)
  {
    Carry(r, fixed + 2);
    Carry(r, dyn + 2);
  }

  lemma Carry(r: nat, n: nat)
    requires r < 8
    ensures (r + n + 8) / 8 == n / 8 + 1 + (if n % 8 + r >= 8 then 1 else 0)
  {}

  /** And otherwise it ends at most this many bytes later than any other form. */
  lemma AtMostLoss(before: nat, s: Sizes, f: Form)
    requires Available(f, s)
    ensures EndBytes(Chosen(s), before, s) <= EndBytes(f, before, s) + Loss(Chosen(s))
  {
    StoredBytes(before, s);
    TreeBytes(before, s.fixed);
    TreeBytes(before, s.dyn);
  }

  /** At the start of a byte, a tree form that fills the bytes a stored block is compared with: one byte is lost. */
  lemma OneByteLost(before: nat, stored: nat)
    requires before % 8 == 0
    ensures var s := Sizes(true, stored, 8 * (stored + 4) - 3, 8 * (stored + 4) - 3);
            Chosen(s) == Stored && EndBytes(Stored, before, s) == EndBytes(Fixed, before, s) + 1
  {
    var s := Sizes(true, stored, 8 * (stored + 4) - 3, 8 * (stored + 4) - 3);
    StoredBytes(before, s);
  }

  /** With six bits in the last byte two bytes are lost. */
  lemma TwoBytesLost(before: nat, stored: nat)
    requires before % 8 == 6
    ensures var s := Sizes(true, stored, 8 * stored + 22, 8 * stored + 22);
            Chosen(s) == Stored && EndBytes(Stored, before, s) == EndBytes(Fixed, before, s) + 2
  {
    var s := Sizes(true, stored, 8 * stored + 22, 8 * stored + 22);
    StoredBytes(before, s);
    TreeBytes(before, s.fixed);
  }
}
