/** The encoders, and what a decoder makes of their waveforms: nominal or with every
    duration off by as much as the thresholds tolerate, after any garbage. */
module IrEncoder {
  import opened Lirc
  import opened IrFrames

  const NEC_THEAD_PULSE := 9000
  const NEC_THEAD_SPACE := NEC_THEAD_PULSE / 2
  const NEC_T0 := 560
  const NEC_T1 := 1680
  const UNKN0_T0 := 500
  const UNKN0_T1 := 1000

  /** Two header samples, a pulse and a space per character, a last pulse. */
  function NecWords(s: string): seq<Word> {
    seq(2 * |s| + 3, i requires 0 <= i < 2 * |s| + 3 =>
      if i == 0 then NEC_THEAD_PULSE
      else if i == 1 then NEC_THEAD_SPACE
      else if i % 2 == 1 && s[(i - 3) / 2] == '1' then NEC_T1 else NEC_T0)
  }

  /** A pulse and a space per character, a last pulse. */
  function Unkn0Words(s: string): seq<Word> {
    seq(2 * |s| + 1, i requires 0 <= i < 2 * |s| + 1 =>
      if i % 2 == 1 && s[i / 2] == '1' then UNKN0_T1 else UNKN0_T0)
  }

  /** The nominal durations, in microseconds. */
  lemma NecNominal(s: string)
    ensures var ws := NecWords(s);
            && |ws| == 2 * |s| + 3 && ws[0] == 9000 && ws[1] == 4500 && ws[|ws| - 1] == 560
            && forall k | 0 <= k < |s| :: ws[2 * k + 2] == 560 && ws[2 * k + 3] == if s[k] == '1' then 1680 else 560
  {
  }

  lemma Unkn0Nominal(s: string)
    ensures var ws := Unkn0Words(s);
            && |ws| == 2 * |s| + 1 && ws[|ws| - 1] == 500
            && forall k | 0 <= k < |s| :: ws[2 * k] == 500 && ws[2 * k + 1] == if s[k] == '1' then 1000 else 500
  {
  }

  method NecEncode(input: string) returns (out: array?<Word>, bytes: nat)
    ensures input == "" ==> out == null && bytes == 0
    ensures input != "" ==> out != null && out[..] == NecWords(input) && bytes == WORD_SIZE * out.Length
  {
    var nbbits := |input|;
    if nbbits <= 0 {
      return null, 0;
    }
    var n := 0;
    out := new Word[nbbits * 2 + 2 + 1];
    out[n], n := NEC_THEAD_PULSE, n + 1;
    out[n], n := NEC_THEAD_SPACE, n + 1;
    for i := 0 to nbbits
      invariant n == 2 * i + 2
      invariant out[..n] == NecWords(input)[..n]
    {
      out[n], n := NEC_T0, n + 1;
      out[n], n := if input[i] == '1' then NEC_T1 else NEC_T0, n + 1;
    }
    out[n], n := NEC_T0, n + 1;
    bytes := WORD_SIZE * out.Length;
  }

  method Unkn0Encode(input: string) returns (out: array?<Word>, bytes: nat)
    ensures input == "" ==> out == null && bytes == 0
    ensures input != "" ==> out != null && out[..] == Unkn0Words(input) && bytes == WORD_SIZE * out.Length
  {
    var nbbits := |input|;
    if nbbits <= 0 {
      return null, 0;
    }
    var n := 0;
    out := new Word[nbbits * 2 + 1];
    for i := 0 to nbbits
      invariant n == 2 * i
      invariant out[..n] == Unkn0Words(input)[..n]
    {
      out[n], n := UNKN0_T0, n + 1;
      out[n], n := if input[i] == '1' then UNKN0_T1 else UNKN0_T0, n + 1;
    }
    out[n], n := UNKN0_T0, n + 1;
    bytes := WORD_SIZE * out.Length;
  }

  // ---------- waveforms with jitter ----------

  /** A received pulse short enough not to end a frame; unkn0 does not time its pulses. */
  predicate PulseFits(c: Codec, w: Word) {
    IsPulse(w) && (c == Nec ==> Duration(w) <= 2500)
  }

  /** A received space on the right side of the bit threshold for `bit` and no gap. */
  predicate SpaceFits(c: Codec, w: Word, bit: char) {
    !IsPulse(w) && match (c, bit)
                   case (Nec, '1') => 1120 < Duration(w) <= 2500
                   case (Nec, _) => Duration(w) <= 1120
                   case (Unkn0, '1') => 800 < Duration(w) <= 10000
                   case (Unkn0, _) => Duration(w) <= 800
  }

  /** Any waveform of the bits `b`: alternating pulses and spaces, pulses outermost. */
  predicate IsBody(c: Codec, ws: seq<Word>, b: string) {
    && IsBinary(b) && |ws| == 2 * |b| + 1
    && forall i | 0 <= i < |ws| :: if i % 2 == 0 then PulseFits(c, ws[i]) else SpaceFits(c, ws[i], b[i / 2])
  }

  /** A NEC frame: two header samples above the frame threshold, then the bits. */
  predicate IsNecFrame(ws: seq<Word>, b: string) {
    |ws| >= 2 && Duration(ws[0]) > 2500 && Duration(ws[1]) > 2500 && IsBody(Nec, ws[2..], b)
  }

  /** The characters as the encoders read them: anything but '1' is sent as '0'. */
  function AsBits(s: string): (b: string)
    ensures IsBinary(b) && |b| == |s|
    ensures IsBinary(s) ==> b == s
  {
    seq(|s|, i requires 0 <= i < |s| => if s[i] == '1' then '1' else '0')
  }

  lemma NecWordsFit(s: string)
    ensures IsNecFrame(Received(NecWords(s)), AsBits(s))
  {
    var ws, b := Received(NecWords(s)), AsBits(s);
    forall i | 0 <= i < |ws[2..]|
      ensures if i % 2 == 0 then PulseFits(Nec, ws[2..][i]) else SpaceFits(Nec, ws[2..][i], b[i / 2])
    {
      assert ws[2..][i] == ws[i + 2];
    }
  }

  lemma Unkn0WordsFit(s: string)
    ensures IsBody(Unkn0, Received(Unkn0Words(s)), AsBits(s))
  {
  }

  lemma {:induction false} BodyBits(c: Codec, ws: seq<Word>, b: string)
    requires IsBody(c, ws, b)
    ensures GapFree(c, ws) && Bits(c, ws) == b
  {
    hide BitOf, IsGap, Bits;
    if b == "" {
      BitsPush(c, [], ws[0]);
      PulseNoGap(c, ws[0]);
      assert ws == [] + [ws[0]];
    } else {
      var n, last := |ws|, |b| - 1;
      var init, s, p := ws[..n - 2], ws[n - 2], ws[n - 1];
      assert n % 2 == 1 && (n - 2) % 2 == 1;
      BodyBits(c, init, b[..last]);
      SpaceNoGap(c, s, b[last]);
      PulseNoGap(c, p);
      BitsPush(c, init, s);
      BitsPush(c, init + [s], p);
      assert ws == init + [s] + [p] && b == b[..last] + [b[last]];
    }
  }

  lemma PulseNoGap(c: Codec, w: Word)
    requires PulseFits(c, w)
    ensures !IsGap(c, w)
  {
  }

  lemma SpaceNoGap(c: Codec, w: Word, bit: char)
    requires SpaceFits(c, w, bit) && (bit == '0' || bit == '1')
    ensures !IsGap(c, w) && BitOf(c, w) == bit
  {
  }

  /** What fits the buffer of each bit string: its first 1022 bits. */
  function Clips(bs: seq<string>): (r: seq<string>)
    ensures |r| == |bs|
    ensures forall i | 0 <= i < |bs| :: r[i] == if |bs[i]| <= 1022 then bs[i] else bs[i][..1022]
    ensures (forall i | 0 <= i < |bs| :: |bs[i]| <= 1022) ==> r == bs
  {
    if bs == [] then [] else Clips(bs[..|bs| - 1]) + [Clip(bs[|bs| - 1])]
  }

  // ---------- NEC: the header closes whatever came before ----------

  /** Whatever the decoder held, a NEC frame hands it out and starts afresh. */
  lemma NecResync(st: State, ws: seq<Word>, b: string)
    requires IsNecFrame(ws, b)
    ensures Run(Nec, st, ws) == State(Flush(st).frames, Clip(b))
  {
    hide Run;
    BodyBits(Nec, ws[2..], b);
    assert ws == [] + [ws[0]] + [ws[1]] + ws[2..];
    RunGap(Nec, st, [], ws[0]);
    RunGap(Nec, st, [] + [ws[0]], ws[1]);
    RunNothing(Nec, st);
    RunPiece(Nec, st, [] + [ws[0]] + [ws[1]], ws[2..]);
    assert "" + b == b;
  }

  lemma RunNothing(c: Codec, st: State)
    ensures Run(c, st, []) == st
  {
  }

  lemma {:induction false} NecFrames(st: State, waves: seq<seq<Word>>, bs: seq<string>)
    requires |waves| == |bs|
    requires forall i | 0 <= i < |bs| :: bs[i] != "" && IsNecFrame(waves[i], bs[i])
    ensures Flush(Run(Nec, st, Concat(waves))) == State(Flush(st).frames + Clips(bs), "")
  {
    hide Run, IsNecFrame;
    if bs == [] {
      RunNothing(Nec, st);
    } else {
      var n := |bs| - 1;
      NecFrames(st, waves[..n], bs[..n]);
      RunConcat(Nec, st, Concat(waves[..n]), waves[n]);
      NecResync(Run(Nec, st, Concat(waves[..n])), waves[n], bs[n]);
    }
  }

  /** NEC round trip under jitter and garbage: frames sent back to back, with no gap
      between them, after any samples `g`, come out in order, behind exactly what `g`
      alone would have produced. */
  lemma NecRoundTrip(g: seq<Word>, waves: seq<seq<Word>>, bs: seq<string>, gap: Word)
    requires |waves| == |bs| && Duration(gap) > 2500
    requires forall i | 0 <= i < |bs| :: bs[i] != "" && IsNecFrame(waves[i], bs[i])
    ensures Frames(Nec, g + Concat(waves) + [gap]) == Frames(Nec, g + [gap]) + Clips(bs)
    ensures Tail(Nec, g + Concat(waves) + [gap]) == ""
  {
    hide Run, IsNecFrame, Frames, Tail, Clips;
    var st := Run(Nec, START, g);
    NecFrames(st, waves, bs);
    RunConcat(Nec, START, g, Concat(waves));
    RunGap(Nec, START, g + Concat(waves), gap);
    RunGap(Nec, START, g, gap);
    RunIsSplit(Nec, g + Concat(waves) + [gap]);
    RunIsSplit(Nec, g + [gap]);
  }

  /** One encoded bit string after any garbage: its first 1022 bits come out. */
  lemma NecSelfSync(g: seq<Word>, b: string, gap: Word)
    requires b != "" && IsBinary(b) && Duration(gap) > 2500
    ensures Frames(Nec, g + Received(NecWords(b)) + [gap]) == Frames(Nec, g + [gap]) + [Clip(b)]
  {
    hide Frames, Tail, NecWords, Received, IsNecFrame;
    var wave := Received(NecWords(b));
    NecWordsFit(b);
    NecRoundTrip(g, [wave], [b], gap);
    assert Concat([wave]) == wave;
    assert Clips([b]) == [Clip(b)];
  }

  // ---------- unkn0: only a gap closes a frame ----------

  /** A space of more than 10 ms. */
  predicate LongSpace(w: Word) {
    !IsPulse(w) && Duration(w) > 10000
  }

  lemma EndsOfFrames(w: Word)
    ensures IsGap(Unkn0, w) <==> LongSpace(w)
    ensures IsGap(Nec, w) <==> Duration(w) > 2500
  {
  }

  /** A frame as unkn0 needs it: the bits, then a long space. */
  predicate IsUnkn0Frame(ws: seq<Word>, b: string) {
    |ws| >= 1 && LongSpace(ws[|ws| - 1]) && IsBody(Unkn0, ws[..|ws| - 1], b)
  }

  lemma Unkn0Frame(st: State, ws: seq<Word>, b: string)
    requires IsUnkn0Frame(ws, b) && |st.text| <= CAPACITY
    ensures Run(Unkn0, st, ws) == Flush(State(st.frames, Clip(st.text + b)))
  {
    hide Run;
    var body := ws[..|ws| - 1];
    EndsOfFrames(ws[|ws| - 1]);
    BodyBits(Unkn0, body, b);
    RunGapFree(Unkn0, st, body);
    RunGap(Unkn0, st, body, ws[|ws| - 1]);
    assert ws == body + [ws[|ws| - 1]];
  }

  lemma {:induction false} Unkn0RoundTripFrom(done: seq<string>, waves: seq<seq<Word>>, bs: seq<string>)
    requires |waves| == |bs|
    requires forall i | 0 <= i < |bs| :: bs[i] != "" && IsUnkn0Frame(waves[i], bs[i])
    ensures Run(Unkn0, State(done, ""), Concat(waves)) == State(done + Clips(bs), "")
  {
    hide Run, IsUnkn0Frame;
    var st := State(done, "");
    if bs == [] {
      RunNothing(Unkn0, st);
    } else {
      var n := |bs| - 1;
      Unkn0RoundTripFrom(done, waves[..n], bs[..n]);
      RunConcat(Unkn0, st, Concat(waves[..n]), waves[n]);
      Unkn0Frame(Run(Unkn0, st, Concat(waves[..n])), waves[n], bs[n]);
      assert "" + bs[n] == bs[n];
    }
  }

  /** unkn0 round trip under jitter: every frame with its gap comes out, in order. */
  lemma Unkn0RoundTrip(waves: seq<seq<Word>>, bs: seq<string>)
    requires |waves| == |bs|
    requires forall i | 0 <= i < |bs| :: bs[i] != "" && IsUnkn0Frame(waves[i], bs[i])
    ensures Frames(Unkn0, Concat(waves)) == Clips(bs)
    ensures Tail(Unkn0, Concat(waves)) == ""
  {
    hide Run, IsUnkn0Frame, Frames, Tail;
    Unkn0RoundTripFrom([], waves, bs);
    RunIsSplit(Unkn0, Concat(waves));
    assert [] + Clips(bs) == Clips(bs);
  }

  /** The first characters of `b` start with `t` and go on with the length of `t` as period. */
  predicate Repeats(t: string, b: string) {
    |b| >= 1022 && t <= b && forall i | 0 <= i < 1022 - |t| :: b[i + |t|] == b[i]
  }

  /** unkn0 has no header: after garbage `g` the bits that `g` left in the buffer become the
      frame's first ones. It is recovered if there are none, and otherwise only if it fills the
      buffer and repeats them. */
  lemma Unkn0NeedsCleanStart(g: seq<Word>, ws: seq<Word>, b: string)
    requires IsUnkn0Frame(ws, b) && b != ""
    ensures var fs, t := Frames(Unkn0, g + ws), Tail(Unkn0, g);
            && fs == Frames(Unkn0, g) + [Clip(t + b)]
            && (fs[|fs| - 1] == Clip(b) <==> t == "" || Repeats(t, b))
  {
    hide Run, IsUnkn0Frame, Frames, Tail, Repeats, Clip;
    var t := Tail(Unkn0, g);
    RunIsSplit(Unkn0, g);
    RunIsSplit(Unkn0, g + ws);
    RunConcat(Unkn0, START, g, ws);
    TailFits(Unkn0, g);
    Unkn0Frame(Run(Unkn0, START, g), ws, b);
    ClippedTogether(t, b);
  }

  lemma ClippedTogether(t: string, b: string)
    requires b != "" && |t| <= CAPACITY
    ensures Clip(t + b) != ""
    ensures Clip(t + b) == Clip(b) <==> t == "" || Repeats(t, b)
  {
    if t == "" {
      assert t + b == b;
    } else if |b| < CAPACITY {
      assert |Clip(t + b)| > |Clip(b)|;
    } else {
      LongTogether(t, b);
    }
  }

  lemma LongTogether(t: string, b: string)
    requires |t| <= CAPACITY <= |b|
    ensures Clip(t + b) == Clip(b) <==> Repeats(t, b)
  {
    var x, y := Clip(t + b), Clip(b);
    assert |x| == CAPACITY == |y|;
    if x == y {
      assert t == x[..|t|] == y[..|t|];
      forall i | 0 <= i < CAPACITY - |t|
        ensures b[i + |t|] == b[i]
      {
        assert x[i + |t|] == y[i + |t|];
      }
    } else {
      var k :| 0 <= k < CAPACITY && x[k] != y[k];
      var i := k - |t|;
      assert i >= 0 ==> x[k] == b[i];
    }
  }

  /** One stray pulse and one stray space are enough to spoil any shorter frame. */
  lemma StrayBit(b: string, gap: Word)
    requires IsBinary(b) && 0 < |b| < 1022 && LongSpace(gap)
    ensures var g := [Mark(500), 500];
            Frames(Unkn0, g + (Received(Unkn0Words(b)) + [gap])) == ["0" + b]
  {
    hide Frames, Tail, Unkn0Words, IsBody, Received, Repeats;
    var g, ws := [Mark(UNKN0_T0), UNKN0_T0], Received(Unkn0Words(b)) + [gap];
    Unkn0WordsFit(b);
    assert ws[..|ws| - 1] == Received(Unkn0Words(b));
    Unkn0NeedsCleanStart(g, ws, b);
    StraySamples();
  }

  lemma StraySamples()
    ensures var g := [Mark(UNKN0_T0), UNKN0_T0]; Frames(Unkn0, g) == [] && Tail(Unkn0, g) == "0"
  {
    hide Cut, Bits, IsGap, BitOf, Mark, IsPulse, Texts;
    var p, s: Word := Mark(UNKN0_T0), UNKN0_T0;
    StrayKinds();
    CutPush(Unkn0, [], p);
    CutPush(Unkn0, [p], s);
    BitsPush(Unkn0, [], p);
    BitsPush(Unkn0, [p], s);
    assert [] + [p] == [p] && [p] + [s] == [p, s] && "" + "0" == "0";
    assert Cut(Unkn0, [p, s]) == Split([], [p, s]);
    NoTexts();
  }

  lemma NoTexts()
    ensures Texts(Unkn0, []) == []
  {
  }

  lemma StrayKinds()
    ensures IsPulse(Mark(UNKN0_T0)) && !IsGap(Unkn0, Mark(UNKN0_T0))
    ensures !IsPulse(UNKN0_T0) && !IsGap(Unkn0, UNKN0_T0) && BitOf(Unkn0, UNKN0_T0) == '0'
  {
  }

  lemma TailFits(c: Codec, ws: seq<Word>)
    ensures |Tail(c, ws)| <= CAPACITY
  {
  }
}
