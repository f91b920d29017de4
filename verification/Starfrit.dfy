/** The bathroom-scale service: from received samples to calls of the configured URLs. */
module Starfrit {
  import opened BitOps
  import opened Checksum
  import opened Debounce
  import opened IrDecoder
  import opened IrFrames
  import opened Lirc
  import opened StarfritRules
  import opened Wrappers

  /** A request posted to `url`, for a weight in tenths of a kilogram. */
  datatype Call = Call(url: string, weight: nat)

  function Kg(weight: nat): real {
    weight as real / 10.0
  }

  // ---------- what the service does with a stream ----------

  /** The weights of the accepted frames. */
  function Readings(frames: seq<string>): seq<nat> {
    if frames == [] then []
    else
      Readings(frames[..|frames| - 1]) +
      match Reading(frames[|frames| - 1]) case None => [] case Some(w) => [w]
  }

  /** Readings with their time stamps: the k-th call of `time(NULL)` returns `clock(k)`. */
  function Stamped(clock: nat -> int, weights: seq<nat>): (h: seq<Weighing>)
    ensures |h| == |weights|
  {
    seq(|weights|, i requires 0 <= i < |weights| => Weighing(clock(i), weights[i]))
  }

  /** The weighings a whole stream of samples amounts to. */
  function History(clock: nat -> int, stream: seq<Word>): seq<Weighing> {
    Stamped(clock, Readings(Frames(Unkn0, stream)))
  }

  /** One request for every rule that matches. */
  function CallsFor(rules: seq<Rule>, weight: nat): seq<Call> {
    var urls := Selected(rules, Kg(weight));
    seq(|urls|, i requires 0 <= i < |urls| => Call(urls[i], weight))
  }

  /** The requests for a sequence of reported weights. */
  function Calls(rules: seq<Rule>, weights: seq<nat>): seq<Call> {
    if weights == [] then []
    else Calls(rules, weights[..|weights| - 1]) + CallsFor(rules, weights[|weights| - 1])
  }

  lemma CallsForPush(rules: seq<Rule>, r: Rule, weight: nat)
    ensures CallsFor(rules + [r], weight) == CallsFor(rules, weight) + if Matches(r, Kg(weight)) then [Call(r.url, weight)] else []
    ensures CallsFor([], weight) == []
  {
    assert (rules + [r])[..|rules|] == rules;
  }

  /** A rule's URL is called if the weight, ten tenths to a kilogram, is within its positive bounds;
      the requests come in the order of the rules. */
  lemma {:induction false} RequestPerRule(before: seq<Rule>, r: Rule, behind: seq<Rule>, weight: nat)
    ensures var called := (r.min <= 0.0 || 10.0 * r.min <= weight as real) && (r.max <= 0.0 || 10.0 * r.max > weight as real);
            CallsFor(before + [r] + behind, weight) ==
            CallsFor(before, weight) + (if called then [Call(r.url, weight)] else []) + CallsFor(behind, weight)
    decreases |behind|
  {
    if behind == [] {
      CallsForPush(before, r, weight);
      assert before + [r] + behind == before + [r];
    } else {
      var init, last := behind[..|behind| - 1], behind[|behind| - 1];
      RequestPerRule(before, r, init, weight);
      assert before + [r] + behind == before + [r] + init + [last] && behind == init + [last];
      hide CallsFor, Matches;
      CallsForPush(before + [r] + init, last, weight);
      CallsForPush(init, last, weight);
    }
  }

  lemma StampedPush(clock: nat -> int, weights: seq<nat>, w: nat)
    ensures Stamped(clock, weights + [w]) == Stamped(clock, weights) + [Weighing(clock(|weights|), w)]
  {
  }

  lemma ReadingsPush(frames: seq<string>, bits: string)
    ensures Readings(frames + [bits]) == Readings(frames) + match Reading(bits) case None => [] case Some(w) => [w]
  {
    assert (frames + [bits])[..|frames|] == frames;
  }

  lemma PushesPush(h: seq<Weighing>, x: Weighing)
    ensures Pushes(h + [x]) == Pushes(h) + if Reports(h + [x]) then [x.weight] else []
    ensures RunLength(h + [x]) ==
            if h != [] && h[|h| - 1].weight == x.weight && x.time - h[|h| - 1].time <= TIMEOUT then RunLength(h) + 1 else 1
  {
    assert (h + [x])[..|h|] == h;
  }

  lemma CallsPush(rules: seq<Rule>, weights: seq<nat>, w: nat)
    ensures Calls(rules, weights + [w]) == Calls(rules, weights) + CallsFor(rules, w)
  {
    assert (weights + [w])[..|weights|] == weights;
  }

  // ---------- the code ----------

  class Scale {
    const decoder: Decoder
    const table: RuleTable
    const clock: nat -> int
    var ticks: nat
    var last: int
    var count: nat
    var date: int
    var sent: seq<Call>
    ghost var frames: seq<string>
    ghost var stream: seq<Word>

    /** The variables are what the frames decoded so far make of them. */
    ghost predicate Consistent()
      reads this, table, table.slots
    {
      var weights := Readings(frames);
      && table.Valid() && ticks == |weights|
      && Tracks(last, count, date, Stamped(clock, weights))
      && sent == Calls(table.Rules(), Pushes(Stamped(clock, weights)))
    }

    ghost predicate Valid()
      reads this, decoder, decoder.buff, table, table.slots
    {
      && Consistent() && decoder.codec == Unkn0 && decoder.Valid()
      && State(frames, decoder.Text()) == Run(Unkn0, START, stream)
    }

    constructor (clock: nat -> int)
      ensures Valid() && stream == [] && this.clock == clock && table.Rules() == []
      ensures fresh(decoder) && fresh(decoder.buff) && fresh(table) && fresh(table.slots)
    {
      this.clock := clock;
      decoder := new Decoder(Unkn0);
      table := new RuleTable();
      ticks, last, count, date, sent := 0, -1, 0, 0, [];
      frames, stream := [], [];
    }

    method ResetMeasurements()
      modifies this`last, this`count
      ensures last == -1 && count == 0
    {
      last := -1;
      count := 0;
    }

    /** Calls every matching URL, in table order. */
    method PushMeasurement(weight: nat)
      requires table.Valid()
      modifies this`sent
      ensures sent == old(sent) + CallsFor(table.Rules(), weight)
    {
      hide CallsFor, Matches;
      CallsForPush([], Rule(0.0, 0.0, ""), weight);
      var n := 0;
      while n < table.count
        invariant n <= table.count
        invariant sent == old(sent) + CallsFor(table.slots[..n], weight)
      {
        var r := table.slots[n];
        CallsForPush(table.slots[..n], r, weight);
        assert table.slots[..n + 1] == table.slots[..n] + [r];
        if Matches(r, Kg(weight)) {
          sent := sent + [Call(r.url, weight)];
        }
        n := n + 1;
      }
    }

    /** An accepted weight: time out, count repeats, report the eleventh. */
    method Weigh(weight: nat, ghost bits: string)
      requires Consistent() && Reading(bits) == Some(weight)
      modifies this
      ensures Consistent() && frames == old(frames) + [bits] && stream == old(stream)
    {
      hide Readings, Stamped, Pushes, RunLength, Calls, CallsFor, Reading;
      ghost var weights := Readings(frames);
      ghost var h := Stamped(clock, weights);
      var t := clock(ticks);
      ticks := ticks + 1;
      ghost var x := Weighing(t, weight);
      ReadingsPush(frames, bits);
      StampedPush(clock, weights, weight);
      PushesPush(h, x);
      CallsPush(table.Rules(), Pushes(h), weight);
      assert Pushes(h) + [] == Pushes(h);
      if t - date > TIMEOUT {
        ResetMeasurements();
      }
      date := t;
      if last == weight {
        count := count + 1;
        if count == SAMEVALUE_CNT && weight != 0 {
          PushMeasurement(weight);
        }
      } else {
        ResetMeasurements();
        last := weight;
      }
      frames := frames + [bits];
    }

    /** A finished frame: five bytes, the right first one, the right check value. */
    method ProcessFrame(bits: string)
      requires Consistent()
      modifies this
      ensures Consistent() && frames == old(frames) + [bits] && stream == old(stream)
    {
      hide Readings, Stamped, Pushes, Tracks, Calls, Pack;
      ReadingsPush(frames, bits);
      var decoded, n := String2Bytes(bits);
      if n == 5 {
        if decoded[0] == TRAIL_BYTE {
          var trail: int, head: int, msb: int, lsb: int := Invert(decoded[0]), Invert(decoded[1]), Invert(decoded[2]), Invert(decoded[3]);
          var check := Invert(decoded[4]);
          var weight := 256 * msb + lsb;
          var sum: int := trail + head + msb + lsb;
          var sumFF := OrOne(sum % 256);
          var remain := sum - sumFF;
          if remain >= 256 {
            sumFF := sumFF + 2;
          }
          if sumFF == check {
            Weigh(weight, bits);
            return;
          }
        }
      }
      assert Readings(frames) + [] == Readings(frames);
      frames := frames + [bits];
    }

    /** Within a chunk: from state `st`, the first `pos` samples of `ws` have been dealt with. */
    ghost predicate Reached(st: State, ws: seq<Word>, pos: nat)
      requires pos <= |ws|
      reads this, decoder, decoder.buff, table, table.slots
    {
      && Consistent() && decoder.codec == Unkn0 && decoder.Valid()
      && State(frames, decoder.Text()) == Run(Unkn0, st, ws[..pos])
    }

    /** One turn of the loop: decode up to a gap, deal with the frame it may have closed. */
    method Turn(ws: seq<Word>, pos: nat, len: nat, ghost st: State) returns (pos': nat, len': nat)
      requires pos <= |ws| && len == WORD_SIZE * (|ws| - pos) && Reached(st, ws, pos)
      modifies this, decoder, decoder.buff
      ensures pos <= pos' <= |ws| && len' == WORD_SIZE * (|ws| - pos') && (pos < |ws| ==> pos < pos')
      ensures Reached(st, ws, pos') && stream == old(stream)
    {
      hide Consistent, Run, Bits, Clip;
      RunToGap(Unkn0, st, ws, pos);
      var found;
      found, pos', len' := decoder.Decode(ws, pos, len);
      if found {
        var bits := decoder.Text();
        ProcessFrame(bits);
        decoder.Reset();
      }
    }

    ghost method BeginChunk(ws: seq<Word>) returns (st: State)
      requires Valid()
      ensures Reached(st, ws, 0) && st == Run(Unkn0, START, stream)
    {
      hide Readings, Stamped, Pushes, Tracks, Calls;
      st := State(frames, decoder.Text());
      assert Run(Unkn0, st, ws[..0]) == st;
    }

    /** The loop over one chunk of received samples. */
    method Process(ws: seq<Word>)
      requires Valid()
      modifies this, decoder, decoder.buff
      ensures Valid() && stream == old(stream) + ws
    {
      ghost var st := BeginChunk(ws);
      var pos, len, more := 0, WORD_SIZE * |ws|, true;
      while more
        invariant pos <= |ws| && len == WORD_SIZE * (|ws| - pos) && Reached(st, ws, pos)
        invariant stream == old(stream) && st == Run(Unkn0, START, stream)
        invariant !more ==> pos == |ws|
        decreases |ws| - pos, more
      {
        hide *;
        pos, len := Turn(ws, pos, len, st);
        more := len > 0;
      }
      CompleteChunk(st, ws);
    }

    /** The chunk is used up: it becomes part of the stream. */
    ghost method CompleteChunk(st: State, ws: seq<Word>)
      requires Reached(st, ws, |ws|) && st == Run(Unkn0, START, stream)
      modifies this`stream
      ensures Valid() && stream == old(stream) + ws
    {
      hide Run, Readings, Stamped, Pushes, Tracks, Calls;
      TakeWhole(ws);
      RunConcat(Unkn0, START, stream, ws);
      stream := stream + ws;
    }

    /** Configuration happens before the first sample. */
    method Configure(args: string, atof: string -> real)
      requires Valid() && stream == [] && table.count == 0 && |args| <= 1023 && '\0' !in args
      modifies table, table.slots
      ensures Valid() && stream == [] && table.Rules() == RulesOf(atof, Tokens(args, 0))
    {
      assert frames == [] && sent == [];
      table.Setup(args, atof);
    }

    /** A life of the service: however the samples arrive, the requests made are those the
        whole stream calls for. */
    method Serve(chunks: seq<seq<Word>>)
      requires Valid() && stream == []
      modifies this, decoder, decoder.buff
      ensures Valid() && stream == Concat(chunks)
      ensures sent == Calls(table.Rules(), Pushes(History(clock, Concat(chunks))))
      ensures Tracks(last, count, date, History(clock, Concat(chunks)))
    {
      for i := 0 to |chunks|
        invariant Valid() && stream == Concat(chunks[..i])
      {
        hide *;
        ConcatPush(chunks, i);
        Process(chunks[i]);
      }
      assert chunks[..|chunks|] == chunks;
      RunIsSplit(Unkn0, stream);
    }
  }

  /** The service from start to end: with the rules of its configuration, the requests made
      are those the stream calls for, however the samples arrive. */
  method Life(clock: nat -> int, args: string, atof: string -> real, chunks: seq<seq<Word>>) returns (sent: seq<Call>)
    requires |args| <= 1023 && '\0' !in args
    ensures sent == Calls(RulesOf(atof, Tokens(args, 0)), Pushes(History(clock, Concat(chunks))))
  {
    var scale := new Scale(clock);
    scale.Configure(args, atof);
    scale.Serve(chunks);
    sent := scale.sent;
  }

  lemma TakeWhole<T>(s: seq<T>)
    ensures s[..|s|] == s
  {
  }

  lemma ConcatPush<T>(parts: seq<seq<T>>, i: nat)
    requires i < |parts|
    ensures Concat(parts[..i + 1]) == Concat(parts[..i]) + parts[i]
  {
    assert parts[..i + 1][..i] == parts[..i];
  }
}
