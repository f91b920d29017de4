/** Conversion between bit strings, most significant bit first, and bytes. */
module BitOps {
  import opened Bitwise

  type Byte = b: int | 0 <= b < 256

  /** The number a bit string spells in base 2. */
  function Number(s: string): nat {
    if s == "" then 0 else 2 * Number(s[..|s| - 1]) + if s[|s| - 1] == '1' then 1 else 0
  }

  /** The number bytes spell in base 256. */
  function Number256(a: seq<Byte>): nat {
    if a == [] then 0 else 256 * Number256(a[..|a| - 1]) + a[|a| - 1]
  }

  function ByteCount(n: nat): (c: nat)
    ensures 8 * c - 8 < n <= 8 * c || n == c == 0
  {
    n / 8 + if n % 8 != 0 then 1 else 0
  }

  function Zeros(n: nat): (s: string)
    ensures |s| == n && forall i | 0 <= i < n :: s[i] == '0'
  {
    seq(n, _ => '0')
  }

  /** `s` filled up with '0' to whole bytes. */
  function Padded(s: string): (p: string)
    ensures |p| == 8 * ByteCount(|s|)
  {
    s + Zeros(8 * ByteCount(|s|) - |s|)
  }

  /** The number that the `j`-th group of eight bits spells. */
  function PackedByte(s: string, j: nat): Byte
    requires j < ByteCount(|s|)
  {
    NumberBound(Padded(s)[8 * j..8 * j + 8]);
    Number(Padded(s)[8 * j..8 * j + 8])
  }

  function Pack(s: string): (a: seq<Byte>)
    ensures |a| == ByteCount(|s|)
  {
    seq(ByteCount(|s|), j requires 0 <= j < ByteCount(|s|) => PackedByte(s, j))
  }

  /** `x & (1 << k)` is non-zero. */
  predicate BitSet(x: nat, k: nat) {
    x / Pow2(k) % 2 == 1
  }

  lemma BitSetIsMask(x: nat, k: nat)
    ensures BitSet(x, k) <==> And(x, Pow2(k)) != 0
  {
    AndOneBit(x, k);
  }

  /** The first `n` bits of `a` as characters. */
  function Unpack(a: seq<Byte>, n: nat): (s: string)
    requires ByteCount(n) <= |a|
    ensures |s| == n && forall i | 0 <= i < n :: s[i] == '0' || s[i] == '1'
  {
    seq(n, i requires 0 <= i < n => BitAt(a, i))
  }

  /** Bit `i` of `a`, counted from the most significant of the first byte. */
  function BitAt(a: seq<Byte>, i: nat): char
    requires i < 8 * |a|
  {
    if BitSet(a[i / 8], 7 - i % 8) then '1' else '0'
  }

  // ---------- the code ----------

  method String2Bytes(input: string) returns (out: array?<Byte>, n: nat)
    ensures input == "" ==> out == null && n == 0
    ensures input != "" ==> out != null && out[..] == Pack(input) && n == out.Length
  {
    var nbbits := |input|;
    if nbbits <= 0 {
      return null, 0;
    }
    hide ByteCount, Pack, PackedByte, Partial, Pow2;
    n := ByteCount(nbbits);
    out := new Byte[n];
    var data, j, b := 0, 0, 8;
    PartialEmpty(input, 0);
    for i := 0 to nbbits
      invariant 1 <= b <= 8 && j <= n && i == 8 * j + (8 - b)
      invariant data == Partial(input, j, 8 - b)
      invariant forall k | 0 <= k < j :: out[k] == PackedByte(input, k)
    {
      PartialPush(input, j, 8 - b);
      b := b - 1;
      if input[i] == '1' {
        data := data + Pow2(b);
      }
      if b == 0 {
        PartialFull(input, j, 8);
        out[j] := data;
        j := j + 1;
        data, b := 0, 8;
        PartialEmpty(input, j);
      }
    }
    if b != 8 {
      PartialFull(input, j, 8 - b);
      out[j] := data;
    }
    PackIs(input, out[..]);
  }

  lemma PackIs(s: string, a: seq<Byte>)
    requires |a| == ByteCount(|s|) && forall k | 0 <= k < |a| :: a[k] == PackedByte(s, k)
    ensures a == Pack(s)
  {
  }

  /** The running byte after `k` of the bits of group `j`. */
  ghost function Partial(s: string, j: nat, k: nat): int
    requires k <= 8
  {
    if 8 * j + k <= |s| then Number(s[8 * j..8 * j + k]) * Pow2(8 - k) else 0
  }

  lemma PartialEmpty(s: string, j: nat)
    ensures Partial(s, j, 0) == 0
  {
  }

  lemma PartialPush(s: string, j: nat, k: nat)
    requires k < 8 && 8 * j + k < |s|
    ensures Partial(s, j, k + 1) == Partial(s, j, k) + if s[8 * j + k] == '1' then Pow2(7 - k) else 0
  {
    var group := s[8 * j..8 * j + k];
    NumberPush(group, s[8 * j + k]);
    assert s[8 * j..8 * j + k + 1] == group + [s[8 * j + k]];
    PushScaled(Number(group), 7 - k);
  }

  /** A full group, or the last one however short, is the byte to store. */
  lemma PartialFull(s: string, j: nat, k: nat)
    requires 0 < k <= 8 && 8 * j + k <= |s| && (k == 8 || 8 * j + k == |s|)
    ensures Partial(s, j, k) == PackedByte(s, j)
  {
    var group := s[8 * j..8 * j + k];
    NumberZeros(group, 8 - k);
    assert Padded(s)[8 * j..8 * j + 8] == group + Zeros(8 - k);
  }

  method Bytes2String(input: array<Byte>, nbbits: int) returns (out: array?<char>)
    requires nbbits > 0 ==> ByteCount(nbbits) <= input.Length
    ensures nbbits <= 0 ==> out == null
    ensures nbbits > 0 ==> out != null && out[..] == Unpack(input[..], nbbits) + ['\0']
  {
    if nbbits <= 0 {
      return null;
    }
    hide ByteCount, Unpack, BitSet, BitAt;
    var nbBytes := ByteCount(nbbits);
    out := new char[nbbits + 1];
    for i := 0 to nbBytes
      invariant forall k | 0 <= k < 8 * i && k < nbbits :: out[k] == BitAt(input[..], k)
    {
      var base, b := 8 * i, 0;
      while b < 8 && base + b < nbbits
        invariant b <= 8 && (b == 0 || base + b <= nbbits)
        invariant forall k | 0 <= k < base + b && k < nbbits :: out[k] == BitAt(input[..], k)
      {
        BitAtIs(input[..], i, b);
        out[base + b] := if BitSet(input[i], 7 - b) then '1' else '0';
        b := b + 1;
      }
    }
    out[nbbits] := '\0';
    UnpackIs(input[..], nbbits, out[..nbbits]);
    assert out[..] == out[..nbbits] + ['\0'];
  }

  lemma BitAtIs(a: seq<Byte>, i: nat, b: nat)
    requires i < |a| && b < 8
    ensures BitAt(a, 8 * i + b) == if BitSet(a[i], 7 - b) then '1' else '0'
  {
    assert (8 * i + b) / 8 == i && (8 * i + b) % 8 == b;
  }

  lemma UnpackIs(a: seq<Byte>, n: nat, s: string)
    requires ByteCount(n) <= |a| && |s| == n
    requires forall k | 0 <= k < n :: s[k] == BitAt(a, k)
    ensures s == Unpack(a, n)
  {
  }

  // ---------- arithmetic of bit strings ----------

  lemma NumberPush(s: string, ch: char)
    ensures Number(s + [ch]) == 2 * Number(s) + if ch == '1' then 1 else 0
  {
    assert (s + [ch])[..|s|] == s;
  }

  lemma PushScaled(n: nat, b: nat)
    ensures n * Pow2(b + 1) == 2 * (n * Pow2(b))
    ensures (2 * n) * Pow2(b) == 2 * (n * Pow2(b))
    ensures (2 * n + 1) * Pow2(b) == 2 * (n * Pow2(b)) + Pow2(b)
  {
    var p := Pow2(b);
    assert n * (2 * p) == 2 * (n * p);
  }

  lemma {:induction false} NumberBelow(s: string)
    ensures Number(s) < Pow2(|s|)
  {
    if s != "" {
      NumberBelow(s[..|s| - 1]);
    }
  }

  lemma NumberBound(s: string)
    requires |s| == 8
    ensures Number(s) < 256
  {
    NumberBelow(s);
    Pow2Eight();
  }

  lemma {:induction false} NumberZeros(s: string, n: nat)
    ensures Number(s + Zeros(n)) == Number(s) * Pow2(n)
  {
    if n == 0 {
      assert s + Zeros(0) == s;
    } else {
      NumberZeros(s, n - 1);
      NumberPush(s + Zeros(n - 1), '0');
      PushScaled(Number(s), n - 1);
      assert s + Zeros(n) == s + Zeros(n - 1) + ['0'];
    }
  }

  /** Dropping the last `m` bits divides by 2^m. */
  lemma {:induction false} NumberShift(s: string, m: nat)
    requires m <= |s|
    ensures Number(s) / Pow2(m) == Number(s[..|s| - m])
  {
    if m == 0 {
      assert s[..|s|] == s;
    } else {
      var init := s[..|s| - 1];
      NumberShift(init, m - 1);
      HalfThenDivide(Number(s), Pow2(m - 1));
      assert init[..|init| - (m - 1)] == s[..|s| - m];
    }
  }

  lemma BitOfNumber(s: string, k: nat)
    requires k < |s|
    ensures BitSet(Number(s), |s| - 1 - k) == (s[k] == '1')
  {
    hide Pow2, Number;
    NumberShift(s, |s| - 1 - k);
    NumberPush(s[..k], s[k]);
    assert s[..|s| - (|s| - 1 - k)] == s[..k] + [s[k]];
  }

  /** The bits of `x`, from bit `n - 1` down to bit `m`, spell `x` without its low part. */
  lemma {:induction false} NumberOfBits(x: nat, n: nat, m: nat, s: string)
    requires m <= n && x < Pow2(n) && |s| == n - m
    requires forall k | 0 <= k < |s| :: (s[k] == '1') == BitSet(x, n - 1 - k)
    ensures Number(s) == x / Pow2(m)
    decreases n - m
  {
    if m == n {
      DivideUnique(x, Pow2(n), 0, x);
    } else {
      var init := s[..|s| - 1];
      NumberOfBits(x, n, m + 1, init);
      assert BitSet(x, m) == (s[|s| - 1] == '1');
      QuotientStep(x, Pow2(m));
    }
  }

  lemma QuotientStep(x: nat, p: nat)
    requires p > 0
    ensures x / p == 2 * (x / (2 * p)) + x / p % 2
  {
    var q := x / p;
    HalfOfQuotient(x, p, q / 2, q % 2, x % p);
  }

  lemma HalfOfQuotient(x: nat, p: nat, h: nat, t: nat, r: nat)
    requires p > 0 && t < 2 && r < p && x == p * (2 * h + t) + r
    ensures x / (2 * p) == h
  {
    assert p * (2 * h + t) == 2 * p * h + p * t;
    DivideUnique(x, 2 * p, h, p * t + r);
  }

  // ---------- the round trips ----------

  lemma PackedBit(s: string, i: nat)
    requires i < |s|
    ensures BitSet(Pack(s)[i / 8], 7 - i % 8) == (s[i] == '1')
  {
    var j, k := i / 8, i % 8;
    var group := Padded(s)[8 * j..8 * j + 8];
    BitOfNumber(group, k);
    assert group[k] == s[i];
  }

  /** No bit is lost by packing, whatever the length. */
  lemma UnpackPack(s: string)
    requires forall i | 0 <= i < |s| :: s[i] == '0' || s[i] == '1'
    ensures Unpack(Pack(s), |s|) == s
  {
    forall i | 0 <= i < |s|
      ensures Unpack(Pack(s), |s|)[i] == s[i]
    {
      PackedBit(s, i);
    }
  }

  /** `x` with its low `k` bits cleared. */
  function ClearLow(x: nat, k: nat): int {
    x / Pow2(k) * Pow2(k)
  }

  /** Packing back what was unpacked gives the bytes, the unused bits of the last one cleared. */
  lemma PackUnpack(a: seq<Byte>, n: nat)
    requires ByteCount(n) <= |a|
    ensures var r := Pack(Unpack(a, n));
            && |r| == ByteCount(n)
            && forall j | 0 <= j < |r| ::
                 r[j] == if 8 * j + 8 <= n then a[j] else ClearLow(a[j], 8 * j + 8 - n)
  {
    forall j | 0 <= j < ByteCount(n)
      ensures Pack(Unpack(a, n))[j] == if 8 * j + 8 <= n then a[j] else ClearLow(a[j], 8 * j + 8 - n)
    {
      PackUnpackAt(a, n, j);
    }
  }

  lemma PackUnpackAt(a: seq<Byte>, n: nat, j: nat)
    requires j < ByteCount(n) <= |a|
    ensures Pack(Unpack(a, n))[j] == if 8 * j + 8 <= n then a[j] else ClearLow(a[j], 8 * j + 8 - n)
  {
    hide Number, Pow2, BitSet, ByteCount;
    var s := Unpack(a, n);
    var m := if 8 * j + 8 <= n then 0 else 8 * j + 8 - n;
    var sent := s[8 * j..8 * j + 8 - m];
    Pow2Eight();
    forall k | 0 <= k < |sent|
      ensures (sent[k] == '1') == BitSet(a[j], 8 - 1 - k)
    {
      BitAtIs(a, j, k);
      assert sent[k] == BitAt(a, 8 * j + k);
    }
    NumberOfBits(a[j], 8, m, sent);
    NumberZeros(sent, m);
    assert Padded(s)[8 * j..8 * j + 8] == sent + Zeros(m);
    DivideByOne(a[j]);
  }

  lemma DivideByOne(x: nat)
    ensures x / Pow2(0) == x && x * Pow2(0) == x
  {
  }

  /** As numbers: the base-256 value of the bytes is the base-2 value of the padded string. */
  lemma PackValue(s: string)
    ensures Number256(Pack(s)) == Number(s) * Pow2(8 * ByteCount(|s|) - |s|)
  {
    hide ByteCount, Number, Number256, Pow2, Zeros;
    NumberZeros(s, 8 * ByteCount(|s|) - |s|);
    GroupsValue(Padded(s), Pack(s));
  }

  /** `a` spells out the groups of eight bits of `p`. */
  predicate Groups(p: string, a: seq<Byte>) {
    |p| == 8 * |a| && forall j | 0 <= j < |a| :: a[j] == Number(p[8 * j..8 * j + 8])
  }

  lemma GroupsOfPrefix(p: string, a: seq<Byte>)
    requires Groups(p, a) && a != []
    ensures var n := |a| - 1;
            Groups(p[..8 * n], a[..n]) && a[n] == Number(p[8 * n..]) && p == p[..8 * n] + p[8 * n..]
  {
    hide Number;
    var n := |a| - 1;
    forall j | 0 <= j < n
      ensures a[..n][j] == Number(p[..8 * n][8 * j..8 * j + 8])
    {
      assert p[..8 * n][8 * j..8 * j + 8] == p[8 * j..8 * j + 8];
    }
    assert p[8 * n..8 * n + 8] == p[8 * n..];
  }

  lemma {:induction false} GroupsValue(p: string, a: seq<Byte>)
    requires Groups(p, a)
    ensures Number256(a) == Number(p)
    decreases |a|
  {
    hide Groups, Pow2, Number;
    if a == [] {
      EmptyGroups(p, a);
    } else {
      var n := |a| - 1;
      GroupsLength(p, a);
      GroupsOfPrefix(p, a);
      GroupsValue(p[..8 * n], a[..n]);
      NumberConcat(p[..8 * n], p[8 * n..]);
      Pow2Eight();
    }
  }

  lemma EmptyGroups(p: string, a: seq<Byte>)
    requires Groups(p, a) && a == []
    ensures Number(p) == 0
  {
  }

  lemma GroupsLength(p: string, a: seq<Byte>)
    requires Groups(p, a)
    ensures |p| == 8 * |a|
  {
  }

  lemma {:induction false} NumberConcat(s: string, t: string)
    ensures Number(s + t) == Number(s) * Pow2(|t|) + Number(t)
    decreases |t|
  {
    if t == "" {
      assert s + t == s;
    } else {
      var init := t[..|t| - 1];
      var p := Pow2(|init|);
      NumberConcat(s, init);
      NumberPush(s + init, t[|t| - 1]);
      assert s + t == s + init + [t[|t| - 1]];
      PushScaled(Number(s), |init|);
    }
  }
}
