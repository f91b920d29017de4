/** The scale's frame: five inverted bytes, the last a corrected sum of the others. */
module Checksum {
  import opened BitOps
  import opened Bitwise
  import opened Wrappers

  const TRAIL_BYTE: Byte := 0x54

  /** `~b & 0xFF`. */
  function Invert(b: int): Byte {
    255 - b % 256
  }

  /** `n | 0x1`. */
  function OrOne(n: nat): nat {
    if n % 2 == 0 then n + 1 else n
  }

  lemma MasksAreDigits(n: nat)
    ensures And(n, 0xFF) == n % 256 && Or(n, 1) == OrOne(n)
  {
    hide And, Or;
    Pow2Eight();
    AndLowBits(n, 8);
    OrOneBit(n, 0);
  }

  /** The check value as both programs compute it. */
  function Corrected(sum: nat): nat {
    var sumFF := OrOne(sum % 256);
    var remain: int := sum - sumFF;
    if remain >= 256 then sumFF + 2 else sumFF
  }

  function FieldSum(d: seq<Byte>): nat
    requires |d| == 5
  {
    Invert(d[0]) + Invert(d[1]) + Invert(d[2]) + Invert(d[3])
  }

  predicate Accepted(d: seq<Byte>) {
    |d| == 5 && d[0] == TRAIL_BYTE && Corrected(FieldSum(d)) == Invert(d[4])
  }

  /** The weight in tenths of a kilogram that a decoded bit string carries, if it is accepted. */
  function Reading(bits: string): Option<nat> {
    var d := Pack(bits);
    if Accepted(d) then Some(256 * Invert(d[2]) + Invert(d[3])) else None
  }

  lemma InvertIs(x: Byte)
    ensures Invert(x) == 255 - x
  {
  }

  lemma CorrectedIs(sum: nat)
    ensures var sumFF := Or(And(sum, 0xFF), 1);
            Corrected(sum) == if sum >= sumFF + 256 then sumFF + 2 else sumFF
  {
    hide And, Or;
    MasksAreDigits(sum);
    MasksAreDigits(sum % 256);
  }

  /** The receiver's test and the weight, operator by operator, for any head byte. */
  lemma ReadingIs(bits: string, head: nat, msb: nat, lsb: nat, check: nat)
    requires head < 256 && msb < 256 && lsb < 256 && check < 256
    requires Pack(bits) == [0x54, 255 - head, 255 - msb, 255 - lsb, 255 - check]
    ensures var sum := 171 + head + msb + lsb;
            var sumFF := Or(And(sum, 0xFF), 1);
            Reading(bits) ==
            if check == (if sum >= sumFF + 256 then sumFF + 2 else sumFF) then Some(256 * msb + lsb) else None
  {
    hide Pack, And, Or, Corrected, Invert;
    CorrectedIs(171 + head + msb + lsb);
    InvertIs(0x54);
    InvertIs(255 - head);
    InvertIs(255 - msb);
    InvertIs(255 - lsb);
    InvertIs(255 - check);
  }

  lemma NoReading(bits: string)
    requires |Pack(bits)| != 5 || Pack(bits)[0] != 0x54
    ensures Reading(bits) == None
  {
  }

  /** The branches compute an end-around-carry sum with the low bit forced to 1, for every
      sum below 768 and above that for the even ones. */
  lemma CorrectedClosedForm(sum: nat)
    requires sum <= 4 * 255
    ensures Corrected(sum) == OrOne(sum % 256 + sum / 256) <==> sum < 768 || sum % 2 == 0
  {
  }

  /** Sums whose check value does not fit a byte: no frame carrying them is accepted. */
  lemma CorrectedOverflows(sum: nat)
    requires sum <= 4 * 255
    ensures Corrected(sum) > 255 <==> sum in {511, 766, 767}
  {
  }

  // ---------- error detection ----------

  /** Carries added back in at the low end, as `Corrected` does it: not the one from 767 to 768. */
  function Folded(sum: nat): nat
    requires sum <= 4 * 255
  {
    sum - 255 * (sum / 256) - if sum < 768 then 0 else 1
  }

  /** Two sums share a check value exactly when folding takes them to the same pair `2k, 2k + 1`. */
  lemma Collisions(sum: nat, sum': nat)
    requires sum <= 4 * 255 && sum' <= 4 * 255
    ensures Corrected(sum) == Corrected(sum') <==> Folded(sum) / 2 == Folded(sum') / 2
  {
    CorrectedIsPair(sum);
    CorrectedIsPair(sum');
  }

  lemma CorrectedIsPair(sum: nat)
    requires sum <= 4 * 255
    ensures Corrected(sum) == Folded(sum) / 2 * 2 + 1
  {
  }

  /** The changes of a sum by `delta`, up from `low`, that leave the check value as it was. */
  predicate Missed(low: int, delta: int) {
    || (delta == 1 && (low % 2 == 1 <==> 256 <= low < 511))
    || (delta == 254 && ((low < 256 && low % 2 == 1) || (257 < low <= 510 && low % 2 == 0)))
    || (delta == 255 && (low < 512 || low % 2 == 1) && low != 256)
  }

  lemma ChangeMissed(low: nat, delta: nat)
    requires 171 <= low && 0 < delta <= 255 && low + delta <= 936
    ensures Corrected(low) == Corrected(low + delta) <==> Missed(low, delta)
  {
    hide Corrected, Folded;
    Collisions(low, low + delta);
    if delta == 1 {
      ByOneMissed(low);
    } else if delta == 254 {
      By254Missed(low);
    } else if delta == 255 {
      By255Missed(low);
    } else {
      FoldedMoves(low, low + delta);
    }
  }

  lemma FoldedMoves(sum: nat, sum': nat)
    requires 171 <= sum && sum + 2 <= sum' <= sum + 253 && sum' <= 936
    ensures Folded(sum) / 2 != Folded(sum') / 2
  {
    assert sum' / 256 == sum / 256 || sum' / 256 == sum / 256 + 1;
    var q := sum / 256;
    if sum' / 256 == q {
      assert Folded(sum') - Folded(sum) == sum' - sum;
    }
  }

  lemma ByOneMissed(low: nat)
    requires 171 <= low <= 935
    ensures Folded(low) / 2 == Folded(low + 1) / 2 <==> Missed(low, 1)
  {
    hide Folded;
    FoldedBySize(low);
    FoldedBySize(low + 1);
  }

  lemma By254Missed(low: nat)
    requires 171 <= low <= 682
    ensures Folded(low) / 2 == Folded(low + 254) / 2 <==> Missed(low, 254)
  {
    hide Folded;
    FoldedBySize(low);
    FoldedBySize(low + 254);
  }

  lemma By255Missed(low: nat)
    requires 171 <= low <= 681
    ensures Folded(low) / 2 == Folded(low + 255) / 2 <==> Missed(low, 255)
  {
    hide Folded;
    FoldedBySize(low);
    FoldedBySize(low + 255);
  }

  lemma FoldedBySize(sum: nat)
    requires sum <= 4 * 255
    ensures sum < 256 ==> Folded(sum) == sum
    ensures 256 <= sum < 512 ==> Folded(sum) == sum - 255
    ensures 512 <= sum < 768 ==> Folded(sum) == sum - 510
    ensures 768 <= sum ==> Folded(sum) == sum - 766
  {
  }

  /** Which changes of head, msb or lsb of an accepted frame pass unnoticed: none by 2 to 253. */
  lemma FieldChange(d: seq<Byte>, j: nat, b: Byte)
    requires Accepted(d) && 1 <= j <= 3 && b != d[j]
    ensures var delta := if b > d[j] then b - d[j] else d[j] - b;
            var low := if b > d[j] then FieldSum(d) - delta else FieldSum(d);
            Accepted(d[j := b]) <==> Missed(low, delta)
  {
    hide Corrected, FieldSum, Missed;
    FieldSumMoves(d, j, b);
    if b > d[j] {
      ChangeMissed(FieldSum(d[j := b]), b - d[j]);
    } else {
      ChangeMissed(FieldSum(d), d[j] - b);
    }
  }

  /** 254 is missed, too: the sums 512 and 258 share a check value. */
  lemma FieldChangeBy254()
    ensures var d: seq<Byte> := [0x54, 0, 169, 255, 252]; Accepted(d) && Accepted(d[1 := 254])
  {
    var d: seq<Byte> := [0x54, 0, 169, 255, 252];
    assert FieldSum(d) == 512 && FieldSum(d[1 := 254]) == 258;
  }

  lemma FieldSumMoves(d: seq<Byte>, j: nat, b: Byte)
    requires |d| == 5 && d[0] == TRAIL_BYTE && 1 <= j <= 3
    ensures FieldSum(d[j := b]) == FieldSum(d) + d[j] - b
    ensures 171 <= FieldSum(d) <= 936 && 171 <= FieldSum(d[j := b]) <= 936
  {
    assert d[j := b][0] == d[0];
  }

  function Flip(s: string, i: nat): string
    requires i < |s|
  {
    s[i := if s[i] == '1' then '0' else '1']
  }

  function Sign(ch: char): int {
    if ch == '1' then -1 else 1
  }

  lemma NumberFlip(s: string, k: nat)
    requires k < |s|
    ensures Number(Flip(s, k)) == Number(s) + Sign(s[k]) * Pow2(|s| - 1 - k)
  {
    hide Number, Pow2;
    var t, rest := Flip(s, k), s[k + 1..];
    assert s == s[..k] + [s[k]] + rest && t == s[..k] + [t[k]] + rest;
    NumberConcat(s[..k] + [s[k]], rest);
    NumberConcat(s[..k] + [t[k]], rest);
    NumberPush(s[..k], s[k]);
    NumberPush(s[..k], t[k]);
    PushScaled(Number(s[..k]), |rest|);
  }

  /** A flipped bit moves its byte by the bit's weight and leaves the others alone. */
  lemma PackFlip(s: string, i: nat)
    requires i < |s|
    ensures var a, a', j, w := Pack(s), Pack(Flip(s, i)), i / 8, Pow2(7 - i % 8);
            && |a'| == |a| && a' == a[j := a'[j]]
            && a'[j] == a[j] + Sign(s[i]) * w
  {
    hide Number, Pow2, ByteCount;
    var t := Flip(s, i);
    var j, k := i / 8, i % 8;
    assert i == 8 * j + k;
    var p, p' := Padded(s), Padded(t);
    assert p' == p[i := t[i]];
    forall m | 0 <= m < |Pack(s)| && m != j
      ensures Pack(t)[m] == Pack(s)[m]
    {
      assert p'[8 * m..8 * m + 8] == p[8 * m..8 * m + 8];
    }
    var group := p[8 * j..8 * j + 8];
    NumberFlip(group, k);
    assert p'[8 * j..8 * j + 8] == Flip(group, k);
    assert Pack(t) == Pack(s)[j := Pack(t)[j]];
  }

  lemma BitWeight(k: nat)
    requires k <= 7
    ensures k == 0 ==> Pow2(k) == 1
    ensures k > 0 ==> 2 <= Pow2(k) <= 128
  {
    assert Pow2(3) == 8 && Pow2(6) == 64 && Pow2(7) == 128;
    if k == 4 || k == 5 {
      assert Pow2(4) == 16 && Pow2(5) == 32;
    }
  }

  /** Single-bit errors in the bits of an accepted frame are detected, except in the lowest
      bits of head, msb and lsb; those pass exactly when the two sums share a check value. */
  lemma SingleBitErrors(bits: string, i: nat)
    requires Reading(bits).Some? && i < |bits|
    ensures i !in {15, 23, 31} ==> Reading(Flip(bits, i)) == None
    ensures i in {15, 23, 31} ==>
              var sum := FieldSum(Pack(bits));
              var low := if bits[i] == '1' then sum else sum - 1;
              Reading(Flip(bits, i)).Some? <==> Missed(low, 1)
  {
    var d, d' := Pack(bits), Pack(Flip(bits, i));
    assert |d| == 5;
    hide Pack, FieldSum, Corrected, Flip, Accepted, Pow2, Missed;
    PackFlip(bits, i);
    ByteMoves(d, i / 8, d'[i / 8], 7 - i % 8, Sign(bits[i]));
  }

  /** What moving byte `j` by the weight of bit `k` does to an accepted frame. */
  lemma ByteMoves(d: seq<Byte>, j: nat, b: Byte, k: nat, sign: int)
    requires Accepted(d) && j < 5 && k < 8 && (sign == 1 || sign == -1)
    requires b == d[j] + sign * Pow2(k)
    ensures j == 0 || j == 4 || k > 0 ==> !Accepted(d[j := b])
    ensures 1 <= j <= 3 && k == 0 ==>
              var low := if sign == 1 then FieldSum(d) - 1 else FieldSum(d);
              Accepted(d[j := b]) <==> Missed(low, 1)
  {
    hide Corrected, FieldSum, Pow2;
    BitWeight(k);
    var weight: int := Pow2(k);
    assert b == d[j] + weight || b == d[j] - weight;
    if 1 <= j <= 3 {
      FieldChange(d, j, b);
    } else if j == 4 {
      CheckByteChange(d, b);
    }
  }

  lemma CheckByteChange(d: seq<Byte>, b: Byte)
    requires Accepted(d) && b != d[4]
    ensures !Accepted(d[4 := b])
  {
    hide Corrected;
    assert FieldSum(d[4 := b]) == FieldSum(d);
  }
}
