/** The resumable decoders of the IR library and the loop every program drives them with. */
module IrDecoder {
  import opened CString
  import opened Lirc
  import opened IrFrames

  const BUFF_SIZE := 1024

  /** Index of the first end-of-frame sample at or after `pos`, or the end of the stream. */
  function NextGap(c: Codec, ws: seq<Word>, pos: nat): (g: nat)
    requires pos <= |ws|
    ensures pos <= g <= |ws| && GapFree(c, ws[pos..g])
    ensures g < |ws| ==> IsGap(c, ws[g])
    decreases |ws| - pos
  {
    if pos == |ws| || IsGap(c, ws[pos]) then pos else NextGap(c, ws, pos + 1)
  }

  lemma TakePush<T>(s: seq<T>, k: nat)
    requires k < |s|
    ensures s[..k + 1] == s[..k] + [s[k]]
  {
  }

  lemma TakeSlice<T>(s: seq<T>, i: nat, j: nat)
    requires i <= j <= |s|
    ensures s[..j] == s[..i] + s[i..j]
  {
  }

  lemma SlicePush<T>(s: seq<T>, i: nat, j: nat)
    requires i <= j < |s|
    ensures s[i..j + 1] == s[i..j] + [s[j]]
  {
  }

  lemma NothingTaken(c: Codec, text: string, ws: seq<Word>, pos: nat)
    requires pos <= |ws| && |text| <= CAPACITY
    ensures Clip(text + Bits(c, ws[pos..pos])) == text
  {
    assert text + Bits(c, ws[pos..pos]) == text;
  }

  /** Reading up to the next gap from the middle of a stream. */
  lemma RunToGap(c: Codec, st: State, ws: seq<Word>, pos: nat)
    requires pos <= |ws| && |Run(c, st, ws[..pos]).text| <= CAPACITY
    ensures var mid, g := Run(c, st, ws[..pos]), NextGap(c, ws, pos);
            var end := State(mid.frames, Clip(mid.text + Bits(c, ws[pos..g])));
            && Run(c, st, ws[..g]) == end
            && (g < |ws| ==> Run(c, st, ws[..g + 1]) == Flush(end))
  {
    hide *;
    var g := NextGap(c, ws, pos);
    TakeSlice(ws, pos, g);
    RunPiece(c, st, ws[..pos], ws[pos..g]);
    if g < |ws| {
      TakePush(ws, g);
      RunGap(c, st, ws[..g], ws[g]);
    }
  }

  function Pushed(c: Codec, text: string, w: Word): string {
    if |text| < CAPACITY && !IsPulse(w) then text + [BitOf(c, w)] else text
  }

  lemma PushExtends(c: Codec, before: string, piece: seq<Word>, w: Word)
    ensures Clip(before + Bits(c, piece + [w])) == Pushed(c, Clip(before + Bits(c, piece)), w)
  {
    BitsPush(c, piece, w);
    if !IsPulse(w) {
      ClipPush(before + Bits(c, piece), BitOf(c, w));
      assert before + Bits(c, piece + [w]) == before + Bits(c, piece) + [BitOf(c, w)];
    } else {
      assert Bits(c, piece + [w]) == Bits(c, piece);
    }
  }

  /** One decoder: `codec` picks the constants and the end-of-frame test of ir_nec.c or
      ir_unkn0.c, whose code is otherwise the same. */
  class Decoder {
    const codec: Codec
    const buff: array<char>
    var idx: nat

    ghost predicate Valid()
      reads this, buff
    {
      && buff.Length == BUFF_SIZE && idx <= CAPACITY
      && IsBinary(buff[..idx])
      && (forall i | idx <= i < BUFF_SIZE :: buff[i] == '\0')
    }

    /** The C string in the buffer: by `Valid` it ends at the index. */
    function Text(): string
      requires idx <= buff.Length
      reads this, buff
    {
      buff[..idx]
    }

    /** `strlen` of the buffer is the index, whatever was decoded or reset before. */
    lemma TextIsString()
      requires Valid()
      ensures Terminated(buff[..]) && Str(buff[..]) == Text()
    {
      StrIs(buff[..], idx);
    }

    constructor (c: Codec)
      ensures Valid() && codec == c && Text() == "" && fresh(buff)
    {
      codec := c;
      buff := new char[BUFF_SIZE](_ => '\0');
      idx := 0;
    }

    method Reset()
      requires buff.Length == BUFF_SIZE
      modifies this, buff
      ensures Valid() && Text() == ""
    {
      idx := 0;
      for i := 0 to BUFF_SIZE
        invariant idx == 0
        invariant forall k | 0 <= k < i :: buff[k] == '\0'
      {
        buff[i] := '\0';
      }
    }

    /** One sample inside a frame; what no longer fits is dropped. */
    method Push(data: Word)
      requires Valid()
      modifies this, buff
      ensures Valid()
      ensures Text() == Pushed(codec, old(Text()), data)
    {
      if idx < BUFF_SIZE - 2 {
        if !IsPulse(data) {
          buff[idx] := BitOf(codec, data);
          idx := idx + 1;
        }
      }
    }

    /** From text `before` at `pos`, the samples up to `at` have been taken in, no gap among them. */
    ghost predicate TakenIn(before: string, ws: seq<Word>, pos: nat, at: nat)
      requires pos <= at <= |ws|
      reads this, buff
    {
      && Valid() && NextGap(codec, ws, pos) == NextGap(codec, ws, at)
      && Text() == Clip(before + Bits(codec, ws[pos..at]))
    }

    /** One more sample that is no gap. */
    method TakeIn(ghost before: string, ws: seq<Word>, ghost pos: nat, at: nat)
      requires pos <= at < |ws| && !IsGap(codec, ws[at]) && TakenIn(before, ws, pos, at)
      modifies this, buff
      ensures TakenIn(before, ws, pos, at + 1)
    {
      hide Bits, Clip, Pushed, IsGap;
      PushExtends(codec, before, ws[pos..at], ws[at]);
      SlicePush(ws, pos, at);
      Push(ws[at]);
    }

    /** Consumes samples up to and including the next gap; `len` counts bytes, `pos` words. */
    method Decode(ws: seq<Word>, pos: nat, len: nat) returns (found: bool, pos': nat, len': nat)
      requires Valid() && pos <= |ws| && len == WORD_SIZE * (|ws| - pos)
      modifies this, buff
      ensures Valid()
      ensures var g := NextGap(codec, ws, pos);
              && pos' == (if g < |ws| then g + 1 else g)
              && len' == WORD_SIZE * (|ws| - pos')
              && Text() == Clip(old(Text()) + Bits(codec, ws[pos..g]))
              && found == (g < |ws| && Text() != "")
    {
      hide Bits, Clip, IsGap;
      ghost var before := Text();
      NothingTaken(codec, before, ws, pos);
      pos', len' := pos, len;
      while len' != 0
        invariant pos <= pos' <= |ws| && len' == WORD_SIZE * (|ws| - pos')
        invariant TakenIn(before, ws, pos, pos')
      {
        var data := ws[pos'];
        pos', len' := pos' + 1, len' - WORD_SIZE;
        if IsGap(codec, data) {
          return idx > 0, pos', len';
        }
        TakeIn(before, ws, pos, pos' - 1);
      }
      found := false;
    }

    /** The driver loop: decode, hand out a finished frame, reset, until the chunk is used up. */
    method Feed(ws: seq<Word>) returns (frames: seq<string>)
      requires Valid()
      modifies this, buff
      ensures Valid()
      ensures State(frames, Text()) == Run(codec, State([], old(Text())), ws)
    {
      ghost var st := State([], Text());
      frames := [];
      var pos, len, more := 0, WORD_SIZE * |ws|, true;
      while more
        invariant pos <= |ws| && len == WORD_SIZE * (|ws| - pos) && Valid()
        invariant Run(codec, st, ws[..pos]) == State(frames, Text())
        invariant !more ==> pos == |ws|
        decreases |ws| - pos, more
      {
        RunToGap(codec, st, ws, pos);
        var found;
        found, pos, len := Decode(ws, pos, len);
        if found {
          frames := frames + [Text()];
          Reset();
        }
        more := len > 0;
      }
      assert ws[..|ws|] == ws;
    }

    /** A run of chunks, the frame under way carried from one to the next: however the
        stream is chunked, the frames are those of the whole stream. */
    method FeedAll(chunks: seq<seq<Word>>) returns (frames: seq<string>)
      requires Valid() && Text() == ""
      modifies this, buff
      ensures Valid()
      ensures frames == Frames(codec, Concat(chunks))
      ensures Text() == Tail(codec, Concat(chunks))
    {
      frames := [];
      for i := 0 to |chunks|
        invariant Valid()
        invariant Run(codec, START, Concat(chunks[..i])) == State(frames, Text())
      {
        ghost var before := State(frames, Text());
        var more := Feed(chunks[i]);
        assert chunks[..i + 1][..i] == chunks[..i];
        RunConcat(codec, START, Concat(chunks[..i]), chunks[i]);
        RunPrefix(codec, before.frames, State([], before.text), chunks[i]);
        assert before.frames + [] == before.frames;
        frames := frames + more;
      }
      assert chunks[..|chunks|] == chunks;
      RunIsSplit(codec, Concat(chunks));
    }
  }
}
