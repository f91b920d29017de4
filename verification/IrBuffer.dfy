/** The phone library's buffer: 32-bit integers stored as four signed bytes each, lowest first. */
module IrBuffer {

  type SByte = b: int | -128 <= b < 128
  type Int32 = v: int | -0x8000_0000 <= v < 0x8000_0000

  /** Casts keep the low bits. */
  function ToSByte(x: int): SByte {
    (x + 128) % 256 - 128
  }

  function ToInt32(x: int): Int32 {
    (x + 0x8000_0000) % 0x1_0000_0000 - 0x8000_0000
  }

  function Scale(t: nat): int
    requires t < 4
  {
    if t == 0 then 1 else if t == 1 then 0x100 else if t == 2 then 0x1_0000 else 0x100_0000
  }

  /** `(byte)(v >> (8 * t))`, the shift being arithmetic. */
  function ByteOf(v: Int32, t: nat): SByte
    requires t < 4
  {
    ToSByte(v / Scale(t))
  }

  /** The sign extension of a byte undone. */
  function Unsigned(b: SByte): int {
    if b < 0 then b + 256 else b
  }

  /** What the first `t` of four bytes contribute. */
  function Partial(b: seq<SByte>, t: nat): int
    requires |b| == 4 && t <= 4
  {
    if t == 0 then 0 else Partial(b, t - 1) + Unsigned(b[t - 1]) * Scale(t - 1)
  }

  /** The integer that four bytes hold. */
  function WordOf(b: seq<SByte>): Int32
    requires |b| == 4
  {
    ToInt32(Partial(b, 4))
  }

  function Shifted(v: Int32): seq<SByte> {
    [ByteOf(v, 0), ByteOf(v, 1), ByteOf(v, 2), ByteOf(v, 3)]
  }

  lemma UnsignedByte(x: int)
    ensures Unsigned(ToSByte(x)) == x % 256
  {
  }

  lemma FourDigits(v: int)
    ensures v % 0x1_0000_0000
            == v % 256 + 0x100 * (v / 0x100 % 256) + 0x1_0000 * (v / 0x1_0000 % 256) + 0x100_0000 * (v / 0x100_0000 % 256)
  {
    var a := v / 0x100;
    var b := a / 0x100;
    var c := b / 0x100;
    assert v == 256 * a + v % 256 && a == 256 * b + a % 256 && b == 256 * c + b % 256;
    assert b == v / 0x1_0000 && c == v / 0x100_0000;
  }

  lemma CastBack(v: Int32)
    ensures ToInt32(v) == v && ToInt32(v % 0x1_0000_0000) == v
  {
  }

  lemma PartialShifted(v: Int32)
    ensures Partial(Shifted(v), 4)
            == v % 256 + 0x100 * (v / 0x100 % 256) + 0x1_0000 * (v / 0x1_0000 % 256) + 0x100_0000 * (v / 0x100_0000 % 256)
  {
    hide Unsigned, ToSByte;
    UnsignedByte(v);
    UnsignedByte(v / 0x100);
    UnsignedByte(v / 0x1_0000);
    UnsignedByte(v / 0x100_0000);
    var b := Shifted(v);
    assert Partial(b, 1) == Unsigned(b[0]) * 1 by {
      assert Partial(b, 0) == 0;
    }
    assert Partial(b, 2) == Partial(b, 1) + Unsigned(b[1]) * 0x100;
    assert Partial(b, 3) == Partial(b, 2) + Unsigned(b[2]) * 0x1_0000;
    assert Partial(b, 4) == Partial(b, 3) + Unsigned(b[3]) * 0x100_0000;
  }

  /** Splitting into bytes and putting them together again loses nothing, for negative values too. */
  lemma WordOfShifted(v: Int32)
    ensures WordOf(Shifted(v)) == v
  {
    hide ToInt32, Partial, Shifted;
    PartialShifted(v);
    FourDigits(v);
    CastBack(v);
  }

  /** The lowest byte comes first. */
  predicate Holds(b: seq<SByte>, v: Int32)
    requires |b| == 4
  {
    && Unsigned(b[0]) == v % 256 && Unsigned(b[1]) == v / 0x100 % 256
    && Unsigned(b[2]) == v / 0x1_0000 % 256 && Unsigned(b[3]) == v / 0x100_0000 % 256
  }

  lemma ShiftedHolds(v: Int32)
    ensures Holds(Shifted(v), v)
  {
    hide ToSByte, Unsigned;
    UnsignedByte(v);
    UnsignedByte(v / 0x100);
    UnsignedByte(v / 0x1_0000);
    UnsignedByte(v / 0x100_0000);
  }

  lemma PartialFits(b: seq<SByte>, t: nat)
    requires |b| == 4 && t < 4
    ensures 0 <= Partial(b, t) < Scale(t)
    ensures ToInt32(Partial(b, t)) == Partial(b, t)
  {
    if t > 0 {
      PartialFits(b, t - 1);
    }
  }

  lemma ShiftedIs(v: Int32, b: seq<SByte>)
    requires |b| == 4 && forall i | 0 <= i < 4 :: b[i] == ByteOf(v, i)
    ensures b == Shifted(v)
  {
  }

  lemma SizeGrows(m: map<nat, Int32>, p: nat, v: Int32)
    ensures |m[p := v]| <= |m| + 1
  {
    assert m[p := v].Keys == m.Keys + {p};
  }

  class Buffer {
    const buffer: array<SByte>
    var len: nat
    ghost var contents: map<nat, Int32>
    ghost var puts: nat

    /** The four bytes at position `p`. */
    function Bytes(p: nat): seq<SByte>
      requires 4 * p + 4 <= buffer.Length
      reads buffer
    {
      [buffer[4 * p], buffer[4 * p + 1], buffer[4 * p + 2], buffer[4 * p + 3]]
    }

    ghost predicate Valid()
      reads this, buffer
    {
      && len == 4 * puts && |contents| <= puts
      && forall p | p in contents :: 4 * p + 4 <= buffer.Length && WordOf(Bytes(p)) == contents[p]
    }

    constructor (count: nat)
      ensures Valid() && buffer.Length == 4 * count && contents == map[] && puts == 0 && fresh(buffer)
    {
      buffer := new SByte[4 * count](_ => 0);
      len := 0;
      contents, puts := map[], 0;
    }

    method Put(pos: nat, v: Int32) returns (next: nat)
      requires Valid() && 4 * pos + 4 <= buffer.Length
      modifies this, buffer
      ensures Valid() && contents == old(contents)[pos := v] && puts == old(puts) + 1 && next == pos + 1
      ensures Holds(Bytes(pos), v)
      ensures forall i | 0 <= i < buffer.Length && (i < 4 * pos || 4 * pos + 4 <= i) :: buffer[i] == old(buffer[i])
    {
      hide WordOf, Holds;
      WriteBytes(pos, v);
      len := len + 4;
      next := pos + 1;
      assert forall p | p in contents && p != pos :: Bytes(p) == old(Bytes(p));
      SizeGrows(contents, pos, v);
      contents, puts := contents[pos := v], puts + 1;
    }

    method WriteBytes(pos: nat, v: Int32)
      requires 4 * pos + 4 <= buffer.Length
      modifies buffer
      ensures WordOf(Bytes(pos)) == v && Holds(Bytes(pos), v)
      ensures forall i | 0 <= i < buffer.Length && (i < 4 * pos || 4 * pos + 4 <= i) :: buffer[i] == old(buffer[i])
    {
      hide WordOf, ByteOf, Shifted, Holds;
      for t := 0 to 4
        invariant forall i | 0 <= i < t :: buffer[4 * pos + i] == ByteOf(v, i)
        invariant forall i | 0 <= i < buffer.Length && (i < 4 * pos || 4 * pos + 4 <= i) :: buffer[i] == old(buffer[i])
      {
        buffer[4 * pos + t] := ByteOf(v, t);
      }
      WordOfShifted(v);
      ShiftedHolds(v);
      ShiftedIs(v, Bytes(pos));
    }

    method Get(pos: nat) returns (v: Int32)
      requires Valid() && 4 * pos + 4 <= buffer.Length
      ensures v == WordOf(Bytes(pos))
      ensures pos in contents ==> v == contents[pos]
    {
      v := FourBytesToInt(buffer, pos);
      assert buffer[4 * pos..4 * pos + 4] == Bytes(pos);
    }

    method Count() returns (n: nat)
      requires Valid()
      ensures n == puts
    {
      n := len / 4;
    }
  }

  method FourBytesToInt(b: array<SByte>, pos: nat) returns (v: Int32)
    requires 4 * pos + 4 <= b.Length
    ensures v == WordOf(b[4 * pos..4 * pos + 4])
  {
    v := 0;
    ghost var w := b[4 * pos..4 * pos + 4];
    for t := 0 to 4
      invariant v == ToInt32(Partial(w, t))
    {
      var tmp: int := b[4 * pos + t];
      if tmp < 0 {
        tmp := tmp + 128 + 128;
      }
      PartialFits(w, t);
      v := ToInt32(v + tmp * Scale(t));
    }
  }
}
