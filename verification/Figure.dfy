/** The phone application's frame builder, and its meeting with the scale service. */
module Figure {
  import opened BitOps
  import opened Bitwise
  import opened Checksum
  import opened Debounce
  import opened IrEncoder
  import opened IrFrames
  import opened Lirc
  import opened Starfrit
  import opened Wrappers

  const FIGURE_TRAIL: nat := 171
  const FIGURE_HEAD: nat := 128
  const FIGURE_BITS := 39

  function Msb(v: int): nat {
    v / 256 % 256
  }

  function Lsb(v: int): nat {
    v % 256
  }

  /** The five bytes sent for value `v`. */
  function FigureBytes(v: int): seq<Byte> {
    var check := Corrected(FIGURE_TRAIL + FIGURE_HEAD + Msb(v) + Lsb(v));
    [Invert(FIGURE_TRAIL), Invert(FIGURE_HEAD), Invert(Msb(v)), Invert(Lsb(v)), Invert(check)]
  }

  /** 39 of their 40 bits. */
  function FigureBits(v: int): string {
    Unpack(FigureBytes(v), FIGURE_BITS)
  }

  method CreateFigure(v: int) returns (ir: array?<Word>)
    ensures ir != null && ir[..] == Unkn0Words(FigureBits(v))
  {
    var msb, lsb := v / 256 % 256, v % 256;
    var sum: int := FIGURE_TRAIL + FIGURE_HEAD + msb + lsb;
    var sumFF := OrOne(sum % 256);
    var remain := sum - sumFF;
    if remain >= 256 {
      sumFF := sumFF + 2;
    }
    var check := sumFF;
    var data := new Byte[5];
    data[0] := Invert(FIGURE_TRAIL);
    data[1] := Invert(FIGURE_HEAD);
    data[2] := Invert(msb);
    data[3] := Invert(lsb);
    data[4] := Invert(check);
    assert data[..] == FigureBytes(v);
    var bits := Bytes2String(data, FIGURE_BITS);
    var bytes;
    ir, bytes := Unkn0Encode(bits[..FIGURE_BITS]);
  }

  /** The values whose check value does not fit a byte. */
  predicate Unsendable(v: int) {
    Msb(v) + Lsb(v) in {212, 467, 468}
  }

  /** The bit that is not sent is always zero, so all five bytes arrive. */
  lemma FigureArrives(v: int)
    ensures Pack(FigureBits(v)) == FigureBytes(v)
  {
    hide *;
    var a := FigureBytes(v);
    FigureBitsAre(v);
    PackUnpack(a, FIGURE_BITS);
    LastBitIsZero(v);
    assert Pack(FigureBits(v)) == a;
  }

  lemma FigureBitsAre(v: int)
    ensures |FigureBytes(v)| == 5 == ByteCount(FIGURE_BITS) && FIGURE_BITS == 39
    ensures FigureBits(v) == Unpack(FigureBytes(v), FIGURE_BITS)
  {
  }

  lemma LastBitIsZero(v: int)
    ensures |FigureBytes(v)| == 5 && ClearLow(FigureBytes(v)[4], 1) == FigureBytes(v)[4]
  {
    hide Msb, Lsb;
    var check := Corrected(FIGURE_TRAIL + FIGURE_HEAD + Msb(v) + Lsb(v));
    OddInverts(FIGURE_TRAIL + FIGURE_HEAD + Msb(v) + Lsb(v));
    assert FigureBytes(v)[4] == Invert(check) && Pow2(1) == 2;
  }

  lemma OddInverts(sum: nat)
    ensures Invert(Corrected(sum)) % 2 == 0
  {
  }

  /** The receiver accepts the frame, with the value as weight, unless it is unsendable. */
  lemma FigureReading(v: int)
    ensures Reading(FigureBits(v)) == if Unsendable(v) then None else Some(v % 0x1_0000)
  {
    hide FigureBytes, FigureBits, Pack, Corrected, Msb, Lsb, FieldSum, Invert;
    FigureArrives(v);
    FigureShape(v);
    var sum := FIGURE_TRAIL + FIGURE_HEAD + Msb(v) + Lsb(v);
    CorrectedOverflows(sum);
    CorrectedBelow(sum);
    assert Accepted(FigureBytes(v)) <==> Corrected(sum) <= 255;
  }

  /** 21.2 kg is such a value. */
  lemma UnsendableWeight()
    ensures Reading(FigureBits(212)) == None
  {
    hide FigureBits, Reading;
    FigureReading(212);
    assert Msb(212) == 0 && Lsb(212) == 212;
  }

  lemma FigureShape(v: int)
    ensures var a, sum := FigureBytes(v), FIGURE_TRAIL + FIGURE_HEAD + Msb(v) + Lsb(v);
            && |a| == 5 && a[0] == TRAIL_BYTE && Invert(a[2]) == Msb(v) && Invert(a[3]) == Lsb(v)
            && FieldSum(a) == sum && Invert(a[4]) == Corrected(sum) % 256
            && 256 * Msb(v) + Lsb(v) == v % 0x1_0000 && sum <= 809
  {
    hide Corrected, Msb, Lsb, Invert;
    TwoBytes(v);
    InvertTwice(FIGURE_TRAIL);
    InvertTwice(FIGURE_HEAD);
    InvertTwice(Msb(v));
    InvertTwice(Lsb(v));
    InvertTwice(Corrected(FIGURE_TRAIL + FIGURE_HEAD + Msb(v) + Lsb(v)));
  }

  lemma TwoBytes(v: int)
    ensures Msb(v) < 256 && Lsb(v) < 256 && 256 * Msb(v) + Lsb(v) == v % 0x1_0000
  {
  }

  lemma InvertTwice(x: nat)
    ensures Invert(Invert(x)) == x % 256 && (x < 256 ==> x % 256 == x)
    ensures Invert(FIGURE_TRAIL) == TRAIL_BYTE
  {
  }

  lemma CorrectedBelow(sum: nat)
    ensures Corrected(sum) <= 257
  {
  }

  /** From the phone to the decoded value: the nominal waveform and any final gap. */
  lemma FigureEndToEnd(v: int, gap: Word)
    requires LongSpace(gap)
    ensures Frames(Unkn0, Received(Unkn0Words(FigureBits(v))) + [gap]) == [FigureBits(v)]
    ensures Readings([FigureBits(v)]) == if Unsendable(v) then [] else [v % 0x1_0000]
  {
    hide Frames, Reading, Unkn0Words, FigureBits, IsBody, Received, Unsendable;
    var bits := FigureBits(v);
    var wave := Received(Unkn0Words(bits)) + [gap];
    FigureReading(v);
    ReadingsPush([], bits);
    assert [] + [bits] == [bits];
    BitsAreBinary(v);
    Unkn0WordsFit(bits);
    assert wave[..|wave| - 1] == Received(Unkn0Words(bits));
    Unkn0RoundTrip([wave], [bits]);
    assert Concat([wave]) == wave;
  }

  lemma BitsAreBinary(v: int)
    ensures IsBinary(FigureBits(v)) && |FigureBits(v)| == FIGURE_BITS
  {
  }

  // ---------- the same value sent again and again ----------

  function Copies<T>(x: T, n: nat): (s: seq<T>)
    ensures |s| == n && forall i | 0 <= i < n :: s[i] == x
  {
    seq(n, _ => x)
  }

  lemma {:induction false} ReadingsOfCopies(v: int, n: nat)
    ensures Readings(Copies(FigureBits(v), n)) == if Unsendable(v) then [] else Copies<nat>(v % 0x1_0000, n)
  {
    hide FigureBits, Unsendable, Reading;
    if n == 0 {
    } else {
      ReadingsOfCopies(v, n - 1);
      ReadingsPush(Copies(FigureBits(v), n - 1), FigureBits(v));
      FigureReading(v);
      assert Copies(FigureBits(v), n) == Copies(FigureBits(v), n - 1) + [FigureBits(v)];
    }
  }

  /** Calls `i - 1` and `i` of the clock are at most the time-out apart. */
  predicate Prompt(clock: nat -> int, i: nat) {
    i > 0 ==> clock(i) - clock(i - 1) <= 15
  }

  lemma {:induction false} PushesOfSteady(clock: nat -> int, w: nat, n: nat)
    requires forall i | 0 <= i < n :: Prompt(clock, i)
    ensures var h := Stamped(clock, Copies<nat>(w, n));
            RunLength(h) == n && Pushes(h) == if n >= 11 && w != 0 then [w] else []
  {
    if n > 0 {
      var before := Copies<nat>(w, n - 1);
      var h, x := Stamped(clock, before), Weighing(clock(n - 1), w);
      assert Prompt(clock, n - 1);
      assert n > 1 ==> h[n - 2] == Weighing(clock(n - 2), w);
      assert Copies<nat>(w, n) == before + [w];
      hide Pushes, RunLength, Stamped, Copies;
      PushesOfSteady(clock, w, n - 1);
      StampedPush(clock, before, w);
      PushesPush(h, x);
    }
  }

  /** Sender to push: any waveforms of the figure for `v`, however jittered, received at most
      15 s apart, make the service report `v` once if there are eleven or more of them, and
      otherwise, or if `v` is zero or unsendable, not at all. */
  lemma SteadyFigure(v: int, waves: seq<seq<Word>>, clock: nat -> int)
    requires forall i | 0 <= i < |waves| :: IsUnkn0Frame(waves[i], FigureBits(v))
    requires forall i | 0 <= i < |waves| :: Prompt(clock, i)
    ensures Pushes(History(clock, Concat(waves))) ==
            if |waves| >= 11 && v % 0x1_0000 != 0 && !Unsendable(v) then [v % 0x1_0000] else []
  {
    hide *;
    HistoryIs(clock, Concat(waves));
    FramesOfCopies(v, waves);
    ReadingsOfCopies(v, |waves|);
    PushesOfSteady(clock, v % 0x1_0000, |waves|);
  }

  lemma HistoryIs(clock: nat -> int, stream: seq<Word>)
    ensures History(clock, stream) == Stamped(clock, Readings(Frames(Unkn0, stream)))
    ensures Pushes(Stamped(clock, [])) == []
  {
  }

  lemma FramesOfCopies(v: int, waves: seq<seq<Word>>)
    requires forall i | 0 <= i < |waves| :: IsUnkn0Frame(waves[i], FigureBits(v))
    ensures Frames(Unkn0, Concat(waves)) == Copies(FigureBits(v), |waves|)
  {
    hide FigureBits, Frames, Concat, IsUnkn0Frame, Tail, Copies;
    BitsAreBinary(v);
    Unkn0RoundTrip(waves, Copies(FigureBits(v), |waves|));
  }
}
