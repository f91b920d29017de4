/** What the decoders compute, twice: `Run` follows the decoder one sample at a time,
    `Frames` and `Tail` split the whole stream at its gaps. `RunIsSplit` says they agree. */
module IrFrames {
  import opened Lirc

  datatype Codec = Nec | Unkn0

  const NEC_TS := 2500
  const NEC_TD := 560 + (1680 - 560) / 2
  const UNKN0_TS := 10000
  const UNKN0_TD := 800

  /** Bits a decoder keeps per frame: the buffer holds 1024 characters and two stay unused. */
  const CAPACITY := 1022

  /** NEC ends a frame on any long sample, unkn0 only on a long space. */
  predicate IsGap(c: Codec, w: Word) {
    match c
    case Nec => Duration(w) > NEC_TS
    case Unkn0 => !IsPulse(w) && Duration(w) > UNKN0_TS
  }

  function BitOf(c: Codec, w: Word): char {
    if Duration(w) > (match c case Nec => NEC_TD case Unkn0 => UNKN0_TD) then '1' else '0'
  }

  predicate GapFree(c: Codec, ws: seq<Word>) {
    forall i | 0 <= i < |ws| :: !IsGap(c, ws[i])
  }

  predicate IsBinary(s: string) {
    forall i | 0 <= i < |s| :: s[i] == '0' || s[i] == '1'
  }

  /** The bits of the spaces among `ws`, pulses dropped. */
  function Bits(c: Codec, ws: seq<Word>): (s: string)
    ensures IsBinary(s)
  {
    if ws == [] then ""
    else
      var last := ws[|ws| - 1];
      Bits(c, ws[..|ws| - 1]) + if IsPulse(last) then "" else [BitOf(c, last)]
  }

  lemma BitsPush(c: Codec, ws: seq<Word>, w: Word)
    ensures Bits(c, ws + [w]) == Bits(c, ws) + if IsPulse(w) then "" else [BitOf(c, w)]
    ensures Bits(c, []) == ""
  {
    assert (ws + [w])[..|ws|] == ws;
  }

  function Clip(s: string): string {
    if |s| <= CAPACITY then s else s[..CAPACITY]
  }

  // ---------- one sample at a time ----------

  /** Frames handed out so far and the text in the decoder's buffer. */
  datatype State = State(frames: seq<string>, text: string)

  const START := State([], "")

  function Flush(st: State): State {
    State(st.frames + if st.text == "" then [] else [st.text], "")
  }

  function Step(c: Codec, st: State, w: Word): State {
    if IsGap(c, w) then Flush(st)
    else if |st.text| < CAPACITY && !IsPulse(w) then st.(text := st.text + [BitOf(c, w)])
    else st
  }

  function Run(c: Codec, st: State, ws: seq<Word>): State {
    if ws == [] then st else Step(c, Run(c, st, ws[..|ws| - 1]), ws[|ws| - 1])
  }

  // ---------- the whole stream at once ----------

  /** A gap-free stretch of samples together with the gap that ends it. */
  datatype Piece = Piece(body: seq<Word>, gap: Word)

  /** A stream cut at its gaps: the closed pieces, empty ones included, and the open rest. */
  datatype Split = Split(closed: seq<Piece>, open: seq<Word>)

  function Cut(c: Codec, ws: seq<Word>): Split {
    if ws == [] then Split([], [])
    else
      var sp, w := Cut(c, ws[..|ws| - 1]), ws[|ws| - 1];
      if IsGap(c, w) then Split(sp.closed + [Piece(sp.open, w)], []) else Split(sp.closed, sp.open + [w])
  }

  /** Each closed piece becomes its bits, cut to the capacity; pieces without bits vanish. */
  function Texts(c: Codec, ps: seq<Piece>): seq<string> {
    if ps == [] then []
    else
      var s := Clip(Bits(c, ps[|ps| - 1].body));
      Texts(c, ps[..|ps| - 1]) + if s == "" then [] else [s]
  }

  /** The frames of a whole stream: every piece that a gap closes. */
  function Frames(c: Codec, ws: seq<Word>): seq<string> {
    Texts(c, Cut(c, ws).closed)
  }

  /** The unfinished frame left in the buffer. */
  function Tail(c: Codec, ws: seq<Word>): string {
    Clip(Bits(c, Cut(c, ws).open))
  }

  function Concat<T>(parts: seq<seq<T>>): seq<T> {
    if parts == [] then [] else Concat(parts[..|parts| - 1]) + parts[|parts| - 1]
  }

  // ---------- Cut is the one way to split a stream ----------

  ghost predicate IsSplit(c: Codec, sp: Split) {
    && (forall i | 0 <= i < |sp.closed| :: GapFree(c, sp.closed[i].body) && IsGap(c, sp.closed[i].gap))
    && GapFree(c, sp.open)
  }

  function JoinClosed(ps: seq<Piece>): seq<Word> {
    if ps == [] then []
    else JoinClosed(ps[..|ps| - 1]) + ps[|ps| - 1].body + [ps[|ps| - 1].gap]
  }

  function Join(sp: Split): seq<Word> {
    JoinClosed(sp.closed) + sp.open
  }

  /** Cutting loses nothing and cuts at every gap. */
  lemma {:induction false} JoinOfCut(c: Codec, ws: seq<Word>)
    ensures IsSplit(c, Cut(c, ws)) && Join(Cut(c, ws)) == ws
  {
    if ws != [] {
      var init, w := ws[..|ws| - 1], ws[|ws| - 1];
      JoinOfCut(c, init);
      var sp := Cut(c, init);
      assert ws == init + [w];
      assert (sp.closed + [Piece(sp.open, w)])[..|sp.closed|] == sp.closed;
    }
  }

  lemma CutPush(c: Codec, ws: seq<Word>, w: Word)
    ensures IsGap(c, w) ==> Cut(c, ws + [w]) == Split(Cut(c, ws).closed + [Piece(Cut(c, ws).open, w)], [])
    ensures !IsGap(c, w) ==> Cut(c, ws + [w]) == Split(Cut(c, ws).closed, Cut(c, ws).open + [w])
    ensures Cut(c, []) == Split([], [])
  {
    assert (ws + [w])[..|ws|] == ws;
  }

  lemma {:induction false} CutExtend(c: Codec, ws: seq<Word>, p: seq<Word>)
    requires GapFree(c, p)
    ensures Cut(c, ws + p) == Split(Cut(c, ws).closed, Cut(c, ws).open + p)
    decreases |p|
  {
    hide Cut;
    var open := Cut(c, ws).open;
    if p == [] {
      assert ws + p == ws && open + p == open;
    } else {
      var init, w := p[..|p| - 1], p[|p| - 1];
      CutExtend(c, ws, init);
      CutPush(c, ws + init, w);
      assert ws + p == ws + init + [w] && open + p == open + init + [w];
    }
  }

  /** Any way of writing a stream as gap-free pieces and gaps is the one `Cut` finds. */
  lemma {:induction false} CutOfJoin(c: Codec, sp: Split)
    requires IsSplit(c, sp)
    ensures Cut(c, Join(sp)) == sp
    decreases |sp.closed|
  {
    var n := |sp.closed|;
    if n == 0 {
      CutExtend(c, [], sp.open);
      assert [] + sp.open == sp.open;
    } else {
      var last := sp.closed[n - 1];
      var before := Split(sp.closed[..n - 1], last.body);
      CutOfJoin(c, before);
      var ws := Join(before) + [last.gap];
      assert ws[..|ws| - 1] == Join(before);
      assert before.closed + [last] == sp.closed;
      CutExtend(c, ws, sp.open);
      assert [] + sp.open == sp.open;
    }
  }

  // ---------- the two views agree ----------

  lemma ClipPush(s: string, ch: char)
    ensures Clip(s + [ch]) == if |Clip(s)| < CAPACITY then Clip(s) + [ch] else Clip(s)
  {
    assert |s| >= CAPACITY ==> (s + [ch])[..CAPACITY] == s[..CAPACITY];
  }

  /** Stream refinement: decoding a whole stream from a fresh buffer yields exactly
      its clipped, non-empty, gap-closed pieces, and leaves the open piece behind. */
  lemma {:induction false} RunIsSplit(c: Codec, ws: seq<Word>)
    ensures Run(c, START, ws) == State(Frames(c, ws), Tail(c, ws))
  {
    hide Cut, Bits, Clip;
    if ws == [] {
      NothingSplit(c);
    } else {
      var init, w := ws[..|ws| - 1], ws[|ws| - 1];
      RunIsSplit(c, init);
      CutPush(c, init, w);
      assert ws == init + [w];
      var sp := Cut(c, init);
      if IsGap(c, w) {
        TextsPush(c, sp.closed, Piece(sp.open, w));
        NothingSplit(c);
      } else {
        BitsPush(c, sp.open, w);
        if IsPulse(w) {
          assert Bits(c, sp.open) + "" == Bits(c, sp.open);
        } else {
          ClipPush(Bits(c, sp.open), BitOf(c, w));
        }
      }
    }
  }

  /** A frame is never empty, holds nothing but bits, and at most 1022 of them. */
  lemma {:induction false} FramesFit(c: Codec, ws: seq<Word>)
    ensures forall i | 0 <= i < |Frames(c, ws)| :: var f := Frames(c, ws)[i]; 0 < |f| <= 1022 && IsBinary(f)
  {
    TextsFit(c, Cut(c, ws).closed);
  }

  lemma {:induction false} TextsFit(c: Codec, ps: seq<Piece>)
    ensures forall i | 0 <= i < |Texts(c, ps)| :: var f := Texts(c, ps)[i]; 0 < |f| <= 1022 && IsBinary(f)
  {
    if ps != [] {
      TextsFit(c, ps[..|ps| - 1]);
    }
  }

  lemma NothingSplit(c: Codec)
    ensures Cut(c, []) == Split([], []) && Clip(Bits(c, [])) == ""
  {
  }

  lemma TextsPush(c: Codec, ps: seq<Piece>, p: Piece)
    ensures var s := Clip(Bits(c, p.body)); Texts(c, ps + [p]) == Texts(c, ps) + if s == "" then [] else [s]
  {
    assert (ps + [p])[..|ps|] == ps;
  }

  /** Decoding a stream in two parts is decoding it whole, wherever it is cut. */
  lemma {:induction false} RunConcat(c: Codec, st: State, a: seq<Word>, b: seq<Word>)
    ensures Run(c, st, a + b) == Run(c, Run(c, st, a), b)
    decreases |b|
  {
    if b == [] {
      assert a + b == a;
    } else {
      RunConcat(c, st, a, b[..|b| - 1]);
      assert (a + b)[..|a + b| - 1] == a + b[..|b| - 1];
    }
  }

  /** Inside a frame, decoding appends the bits of the spaces, up to the capacity. */
  lemma {:induction false} RunGapFree(c: Codec, st: State, ws: seq<Word>)
    requires |st.text| <= CAPACITY && GapFree(c, ws)
    ensures Run(c, st, ws) == State(st.frames, Clip(st.text + Bits(c, ws)))
  {
    if ws == [] {
      assert st.text + Bits(c, ws) == st.text;
    } else {
      var init, w := ws[..|ws| - 1], ws[|ws| - 1];
      RunGapFree(c, st, init);
      if IsPulse(w) {
        assert Bits(c, ws) == Bits(c, init);
      } else {
        assert st.text + Bits(c, ws) == st.text + Bits(c, init) + [BitOf(c, w)];
        ClipPush(st.text + Bits(c, init), BitOf(c, w));
      }
    }
  }

  lemma RunPiece(c: Codec, st: State, a: seq<Word>, p: seq<Word>)
    requires |Run(c, st, a).text| <= CAPACITY && GapFree(c, p)
    ensures Run(c, st, a + p) == State(Run(c, st, a).frames, Clip(Run(c, st, a).text + Bits(c, p)))
  {
    RunConcat(c, st, a, p);
    RunGapFree(c, Run(c, st, a), p);
  }

  lemma RunGap(c: Codec, st: State, ws: seq<Word>, g: Word)
    requires IsGap(c, g)
    ensures Run(c, st, ws + [g]) == Flush(Run(c, st, ws))
  {
    assert (ws + [g])[..|ws|] == ws;
  }

  /** Frames already handed out do not influence later decoding. */
  lemma {:induction false} RunPrefix(c: Codec, done: seq<string>, st: State, ws: seq<Word>)
    ensures var r := Run(c, st, ws); Run(c, State(done + st.frames, st.text), ws) == State(done + r.frames, r.text)
  {
    if ws != [] {
      RunPrefix(c, done, st, ws[..|ws| - 1]);
    }
  }
}
