/**
 Repair of over-long codes: gen_bitlen moves leaves down the tree until the
 clamped lengths fit the code space again.
 */
module LengthRepair {
  import opened Bits
  import opened Canonical

  /** The share of a code space of size 2^top taken by count[b] codes of each length b <= l. */
  ghost function Weight(count: seq<nat>, l: nat, top: nat): nat
    requires l <= top && l < |count|
  {
    if l == 0 then 0 else Weight(count, l - 1, top) + count[l] * Pow2(top - l)
  }

  /** The number of codes of length 1 to l. */
  ghost function Items(count: seq<nat>, l: nat): nat
    requires l < |count|
  {
    if l == 0 then 0 else Items(count, l - 1) + count[l]
  }

  lemma {:induction false} WeightUpdate(count: seq<nat>, b: nat, v: nat, l: nat, top: nat)
    requires l <= top && l < |count| && 1 <= b <= top && b < |count|
    ensures Weight(count[b := v], l, top) == Weight(count, l, top)
            + (if b <= l then (v - count[b]) * Pow2(top - b) else 0)
  {
    hide Pow2;
    if l > 0 {
      WeightUpdate(count, b, v, l - 1, top);
      if b == l {
        Replace(v, count[b], Pow2(top - l));
      }
    }
  }

  lemma Replace(v: int, c: int, p: int)
    ensures v * p == c * p + (v - c) * p
  {}

  lemma {:induction false} ItemsUpdate(count: seq<nat>, b: nat, v: nat, l: nat)
    requires l < |count| && 1 <= b < |count|
    ensures Items(count[b := v], l) == Items(count, l) + (if b <= l then v - count[b] else 0)
  {
    if l > 0 {
      ItemsUpdate(count, b, v, l - 1);
    }
  }

  /** Without shorter codes, the weight is the number of codes. */
  lemma {:induction false} OnlyLong(count: seq<nat>, l: nat, top: nat)
    requires l <= top && l < |count| && forall b | 1 <= b <= l :: count[b] == 0
    ensures Weight(count, l, top) == 0 && Items(count, l) == 0
  {
    hide Pow2;
    if l > 0 {
      OnlyLong(count, l - 1, top);
    }
  }

  /** The state of the repair loop with the given number of overflowing nodes left. */
  ghost predicate Repairing(count: seq<nat>, top: nat, overflow: nat, leaves: nat)
  {
    && 1 <= top < |count| && count[0] == 0
    && 2 * Weight(count, top, top) == 2 * Pow2(top) + overflow
    && Items(count, top) == leaves <= Pow2(top)
    && 2 * count[top] >= overflow
  }

  /** While there is an excess, some leaf is shorter than the maximum. */
  lemma ShorterExists(count: seq<nat>, top: nat, overflow: nat, leaves: nat)
    requires Repairing(count, top, overflow, leaves) && overflow > 0
    ensures exists b :: 1 <= b < top && count[b] > 0
  {
    assert count[top] * Pow2(0) == count[top];
    if forall b | 1 <= b <= top - 1 :: count[b] == 0 {
      OnlyLong(count, top - 1, top);
    }
  }

  /**
   A leaf of length b makes room for itself and for a clamped leaf at length b + 1:
   the number of leaves stays, the excess drops by one unit, no count becomes negative.
   */
  lemma RepairStep(count: seq<nat>, b: nat, top: nat, overflow: nat, leaves: nat, one: seq<nat>, two: seq<nat>,
                   r: seq<nat>)
    requires Repairing(count, top, overflow, leaves) && overflow >= 2
    requires 1 <= b < top && count[b] > 0
    requires one == count[b := count[b] - 1]
    requires two == one[b + 1 := one[b + 1] + 2]
    requires r == two[top := two[top] - 1]
    ensures Repairing(r, top, overflow - 2, leaves)
  {
    hide Pow2, Weight, Items;
    WeightUpdate(count, b, count[b] - 1, top, top);
    WeightUpdate(one, b + 1, one[b + 1] + 2, top, top);
    WeightUpdate(two, top, two[top] - 1, top, top);
    ItemsUpdate(count, b, count[b] - 1, top);
    ItemsUpdate(one, b + 1, one[b + 1] + 2, top);
    ItemsUpdate(two, top, two[top] - 1, top);
    Halves(top, b);
  }

  lemma Halves(top: nat, b: nat)
    requires b < top
    ensures -1 * Pow2(top - b) + 2 * Pow2(top - (b + 1)) == 0
    ensures -1 * Pow2(top - top) == -1
  {}

  lemma EvenOverflow(count: seq<nat>, top: nat, overflow: nat, leaves: nat)
    requires Repairing(count, top, overflow, leaves)
    ensures overflow % 2 == 0 && (overflow > 0 ==> count[top] >= 1)
  {}

  /** The greatest length up to b that is in use, or zero. */
  ghost function LongestUsed(count: seq<nat>, b: nat): (r: nat)
    requires b < |count|
    ensures r <= b && (r == 0 || count[r] > 0) && forall i | r < i <= b :: count[i] == 0
  {
    if b == 0 || count[b] > 0 then b else LongestUsed(count, b - 1)
  }

  /**
   One step of the repair: a leaf of the greatest length below top that is in use
   goes one level down, and a leaf of length top becomes its brother.
   */
  ghost function MoveDown(count: seq<nat>, top: nat): (r: seq<nat>)
    requires 1 <= top < |count|
    ensures |r| == |count|
  {
    var b := LongestUsed(count, top - 1);
    if b == 0 then count
    else
      var one := count[b := count[b] - 1];
      var two := one[b + 1 := one[b + 1] + 2];
      if two[top] == 0 then two else two[top := two[top] - 1]
  }

  /** The counts after n such steps. */
  ghost function Moved(count: seq<nat>, top: nat, n: nat): (r: seq<nat>)
    requires 1 <= top < |count|
    ensures |r| == |count|
    decreases n
  {
    if n == 0 then count else Moved(MoveDown(count, top), top, n - 1)
  }

  lemma LongestIs(count: seq<nat>, top: nat, b: nat)
    requires 1 <= b < top < |count| && count[b] > 0 && forall i | b < i < top :: count[i] == 0
    ensures LongestUsed(count, top - 1) == b
  {
    var _ := LongestUsed(count, top - 1);
  }

  /** The repair loop of gen_bitlen: it ends, with counts that fill the code space exactly. */
  method RepairCounts(blCount: array<nat>, maxLength: nat, overflow0: nat, ghost leaves: nat)
    requires Repairing(blCount[..], maxLength, overflow0, leaves) && overflow0 > 0
    modifies blCount
    ensures Repairing(blCount[..], maxLength, 0, leaves)
    ensures 1 <= maxLength < blCount.Length && blCount[..] == Moved(old(blCount[..]), maxLength, overflow0 / 2)
    ensures forall b | maxLength < b < blCount.Length :: blCount[b] == old(blCount[b])
  {
    hide Repairing, MoveDown, LongestUsed;
    var overflow := overflow0;
    assert 1 <= maxLength < blCount.Length by { Bounds(blCount[..], maxLength, overflow, leaves); }
    while overflow > 0
      invariant Repairing(blCount[..], maxLength, overflow, leaves)
      invariant Moved(blCount[..], maxLength, overflow / 2) == Moved(old(blCount[..]), maxLength, overflow0 / 2)
      invariant forall b | maxLength < b < blCount.Length :: blCount[b] == old(blCount[b])
    {
      var bits := FindShorter(blCount, maxLength, overflow, leaves);
      EvenOverflow(blCount[..], maxLength, overflow, leaves);
      ghost var count := blCount[..];
      blCount[bits] := blCount[bits] - 1;
      ghost var one := blCount[..];
      blCount[bits + 1] := blCount[bits + 1] + 2;
      ghost var two := blCount[..];
      blCount[maxLength] := blCount[maxLength] - 1;
      IsMoveDown(count, bits, maxLength, one, two, blCount[..]);
      RepairStep(count, bits, maxLength, overflow, leaves, one, two, blCount[..]);
      overflow := overflow - 2;
    }
  }

  lemma IsMoveDown(count: seq<nat>, b: nat, top: nat, one: seq<nat>, two: seq<nat>, r: seq<nat>)
    requires 1 <= b < top < |count| && count[b] > 0 && forall i | b < i < top :: count[i] == 0
    requires one == count[b := count[b] - 1] && two == one[b + 1 := one[b + 1] + 2] && two[top] > 0
             && r == two[top := two[top] - 1]
    ensures MoveDown(count, top) == r
  {
    LongestIs(count, top, b);
  }

  lemma Bounds(count: seq<nat>, top: nat, overflow: nat, leaves: nat)
    requires Repairing(count, top, overflow, leaves)
    ensures 1 <= top < |count|
  {}

  method FindShorter(blCount: array<nat>, maxLength: nat, ghost overflow: nat, ghost leaves: nat) returns (bits: nat)
    requires Repairing(blCount[..], maxLength, overflow, leaves) && overflow > 0
    ensures 1 <= bits < maxLength < blCount.Length && blCount[bits] > 0
    ensures forall b | bits < b < maxLength :: blCount[b] == 0
  {
    ShorterExists(blCount[..], maxLength, overflow, leaves);
    hide Repairing;
    ghost var w :| 1 <= w < maxLength && blCount[..][w] > 0;
    bits := maxLength - 1;
    while blCount[bits] == 0
      invariant w <= bits < maxLength < blCount.Length
      invariant forall b | bits < b < maxLength :: blCount[b] == 0
      decreases bits
    {
      bits := bits - 1;
    }
  }
}
