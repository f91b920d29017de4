/** The samples the infrared driver delivers and accepts: 32-bit words whose low
    24 bits are a duration in microseconds and whose bit 24 tells a pulse from a
    space. */
module Lirc {
  import opened Bitwise

  type Word = w: int | 0 <= w < 0x1_0000_0000

  const PULSE_BIT := 0x0100_0000
  const WORD_SIZE := 4

  /** `w & PULSE_BIT` is non-zero. */
  predicate IsPulse(w: Word) {
    w / PULSE_BIT % 2 == 1
  }

  /** `w & PULSE_MASK`, the low 24 bits. */
  function Duration(w: Word): nat {
    w % PULSE_BIT
  }

  /** `w | PULSE_BIT`. */
  function Mark(w: Word): Word {
    if IsPulse(w) then w else w + PULSE_BIT
  }

  /** What the receiver sees of a transmitted waveform: sent words alternate pulse
      and space and carry no flag, received ones have it on the even positions. */
  function Received(ws: seq<Word>): (r: seq<Word>)
    ensures |r| == |ws|
  {
    seq(|ws|, i requires 0 <= i < |ws| => if i % 2 == 0 then Mark(ws[i]) else ws[i])
  }

  lemma PulseBitIs()
    ensures PULSE_BIT == Pow2(24)
  {
    Pow2Eight();
    assert Pow2(12) == 4096 && Pow2(16) == 0x1_0000 && Pow2(20) == 0x10_0000;
  }

  /** The three definitions above are the driver's bit masks. */
  lemma MasksAreDigits(w: Word)
    ensures IsPulse(w) <==> And(w, 0x0100_0000) != 0
    ensures Duration(w) == And(w, 0x00FF_FFFF)
    ensures Mark(w) == Or(w, 0x0100_0000)
  {
    hide And, Or, Pow2;
    PulseBitIs();
    AndOneBit(w, 24);
    AndLowBits(w, 24);
    OrOneBit(w, 24);
  }
}
