/** Assembling the physical lines of the configuration file into logical ones. */
module ConfReader {
  import opened CString
  import opened KeySplitting
  import opened Trimming
  import opened TrimmingLaws
  import opened Wrappers

  const FILELINE_SIZE := 256

  /** The lines that survive trimming, trimmed. */
  function Kept(lines: seq<string>): seq<Line> {
    if lines == [] then []
    else
      var line := Trimmed(lines[|lines| - 1]);
      Kept(lines[..|lines| - 1]) + if line.text == "" then [] else [line]
  }

  /** Index of the first line that does not announce a continuation, or the end. */
  function FirstEnd(ls: seq<Line>): (k: nat)
    ensures k <= |ls| && (k < |ls| ==> !ls[k].multi)
  {
    if ls == [] || !ls[0].multi then 0 else 1 + FirstEnd(ls[1..])
  }

  function Text(ls: seq<Line>): string {
    if ls == [] then "" else Text(ls[..|ls| - 1]) + ls[|ls| - 1].text
  }

  /** Every run of continued lines together with the line that ends it, as one string;
      a run that nothing ends yields nothing. */
  function Logical(ls: seq<Line>): seq<string>
    decreases |ls|
  {
    var k := FirstEnd(ls);
    if k == |ls| then [] else [Text(ls[..k + 1])] + Logical(ls[k + 1..])
  }

  /** The unfinished run at the end. */
  function Pending(ls: seq<Line>): seq<Line>
    decreases |ls|
  {
    var k := FirstEnd(ls);
    if k == |ls| then ls else Pending(ls[k + 1..])
  }

  function Settings(ls: seq<string>): seq<Setting> {
    if ls == [] then []
    else
      var s := SettingOf(ls[|ls| - 1]);
      Settings(ls[..|ls| - 1]) + if s == None then [] else [s.value]
  }

  lemma {:induction false} FirstEndIsFirst(ls: seq<Line>, i: nat)
    requires i < FirstEnd(ls)
    ensures ls[i].multi
  {
    if i > 0 {
      FirstEndIsFirst(ls[1..], i - 1);
    }
  }

  lemma {:induction false} FirstEndPush(ls: seq<Line>, x: Line)
    ensures FirstEnd(ls + [x]) == if FirstEnd(ls) == |ls| && x.multi then |ls| + 1 else FirstEnd(ls)
  {
    if ls != [] && ls[0].multi {
      FirstEndPush(ls[1..], x);
      assert (ls + [x])[1..] == ls[1..] + [x];
    }
  }

  lemma LogicalUnfold(ls: seq<Line>, k: nat)
    requires FirstEnd(ls) == k < |ls|
    ensures Logical(ls) == [Text(ls[..k + 1])] + Logical(ls[k + 1..])
    ensures Pending(ls) == Pending(ls[k + 1..])
  {
    hide Text, FirstEnd;
  }

  /** A line without continuation ends a run. */
  lemma EndCloses(ls: seq<Line>, x: Line)
    requires FirstEnd(ls) == |ls| && !x.multi
    ensures Logical(ls + [x]) == [Text(ls) + x.text] && Pending(ls + [x]) == []
  {
    hide *;
    FirstEndPush(ls, x);
    NothingEnds([]);
    TakeAll(ls + [x]);
    LogicalUnfold(ls + [x], |ls|);
    TextPush(ls, x);
  }

  lemma TakeAll<T>(s: seq<T>)
    ensures s[..|s|] == s && s[|s|..] == []
  {
  }

  lemma NothingEnds(ls: seq<Line>)
    requires ls == [] || FirstEnd(ls) == |ls|
    ensures Logical(ls) == [] && Pending(ls) == ls
  {
    hide Text;
  }

  lemma TextPush(ls: seq<Line>, x: Line)
    ensures Text(ls + [x]) == Text(ls) + x.text
  {
    assert (ls + [x])[..|ls|] == ls;
  }

  /** How one more trimmed line changes the logical lines and the run in progress. */
  lemma {:induction false} LogicalPush(ls: seq<Line>, x: Line)
    ensures Logical(ls + [x]) == Logical(ls) + if x.multi then [] else [Text(Pending(ls)) + x.text]
    ensures Pending(ls + [x]) == if x.multi then Pending(ls) + [x] else []
    decreases |ls|
  {
    hide Logical, Pending, FirstEnd, Text;
    var k := FirstEnd(ls);
    FirstEndPush(ls, x);
    if k < |ls| {
      LogicalUnfold(ls, k);
      LogicalUnfold(ls + [x], k);
      LogicalPush(ls[k + 1..], x);
      assert (ls + [x])[k + 1..] == ls[k + 1..] + [x];
      assert (ls + [x])[..k + 1] == ls[..k + 1];
    } else {
      NothingEnds(ls);
      if x.multi {
        NothingEnds(ls + [x]);
      } else {
        EndCloses(ls, x);
      }
    }
  }

  /** How one more physical line changes everything. */
  lemma LinePush(lines: seq<string>, i: nat)
    requires i < |lines|
    ensures var kept, kept', x := Kept(lines[..i]), Kept(lines[..i + 1]), Trimmed(lines[i]);
            if x.text == "" then kept' == kept
            else
              && Pending(kept') == (if x.multi then Pending(kept) + [x] else [])
              && Text(Pending(kept) + [x]) == Text(Pending(kept)) + x.text
              && Settings(Logical(kept')) == Settings(Logical(kept)) +
                   if x.multi then [] else match SettingOf(Text(Pending(kept)) + x.text) case None => [] case Some(s) => [s]
  {
    hide Kept, Logical, Pending, Settings, SettingOf, Text, Trimmed;
    var kept, x := Kept(lines[..i]), Trimmed(lines[i]);
    KeptPush(lines, i);
    if x.text != "" {
      LogicalPush(kept, x);
      TextPush(Pending(kept), x);
      SettingsPush(Logical(kept), Text(Pending(kept)) + x.text);
      assert Logical(kept) + [] == Logical(kept);
    }
  }

  lemma KeptPush(lines: seq<string>, i: nat)
    requires i < |lines|
    ensures var x := Trimmed(lines[i]); Kept(lines[..i + 1]) == if x.text == "" then Kept(lines[..i]) else Kept(lines[..i]) + [x]
  {
    assert lines[..i + 1][..i] == lines[..i];
  }

  lemma SettingsPush(ls: seq<string>, t: string)
    ensures Settings(ls + [t]) == Settings(ls) + match SettingOf(t) case None => [] case Some(s) => [s]
  {
    assert (ls + [t])[..|ls|] == ls;
  }

  // ---------- a run of continued lines, spelled out ----------

  /** The trimmed texts of some lines, one behind the other. */
  function Joined(lines: seq<string>): string {
    if lines == [] then "" else Joined(lines[..|lines| - 1]) + Trimmed(lines[|lines| - 1]).text
  }

  /** Blank, nothing but a comment, or continued in the next line. */
  predicate GoesOn(line: string) {
    Trimmed(line).text == "" || (Continued(line) && !Commented(line))
  }

  /** Lines that go on yield nothing yet, but are remembered. */
  lemma {:induction false} RunIsPending(before: seq<string>, run: seq<string>)
    requires Pending(Kept(before)) == [] && forall i | 0 <= i < |run| :: GoesOn(run[i])
    ensures Settings(Logical(Kept(before + run))) == Settings(Logical(Kept(before)))
    ensures Text(Pending(Kept(before + run))) == Joined(run)
    decreases |run|
  {
    hide Kept, Logical, Pending, Settings, SettingOf, Text, Trimmed, Continued, Commented;
    if run == [] {
      assert before + run == before;
      NoText();
    } else {
      var lines, n, x := before + run, |before + run| - 1, run[|run| - 1];
      RunIsPending(before, run[..|run| - 1]);
      assert lines[..n] == before + run[..|run| - 1] && lines[..n + 1] == lines && lines[n] == x;
      LinePush(lines, n);
      ContinuesExactly(x);
      assert GoesOn(x);
      assert Joined(run[..|run| - 1]) + "" == Joined(run[..|run| - 1]);
      assert Settings(Logical(Kept(before))) + [] == Settings(Logical(Kept(before)));
    }
  }

  lemma NoText()
    ensures Text([]) == "" && Joined([]) == ""
  {
  }

  /** Lines that go on and the line that ends them are read as one line; so is a line alone. */
  lemma RunBecomesSetting(before: seq<string>, run: seq<string>, last: string)
    requires Pending(Kept(before)) == [] && (forall i | 0 <= i < |run| :: GoesOn(run[i])) && !GoesOn(last)
    ensures var lines := before + run + [last];
            && Settings(Logical(Kept(lines))) == Settings(Logical(Kept(before))) +
                 (match SettingOf(Joined(run) + Trimmed(last).text) case None => [] case Some(s) => [s])
            && Pending(Kept(lines)) == []
  {
    hide Kept, Logical, Pending, Settings, SettingOf, Text, Trimmed, Continued, Commented;
    var lines, n := before + run + [last], |before + run|;
    RunIsPending(before, run);
    assert lines[..n] == before + run && lines[..n + 1] == lines && lines[n] == last;
    LinePush(lines, n);
    ContinuesExactly(last);
  }

  // ---------- the reading loop ----------

  /** The loop's variables after `i` lines. */
  predicate Assembled(lines: seq<string>, i: nat, settings: seq<Setting>, line: string, isMultiline: bool)
    requires i <= |lines|
  {
    var kept := Kept(lines[..i]);
    && settings == Settings(Logical(kept))
    && (isMultiline <==> Pending(kept) != [])
    && (isMultiline ==> line == Text(Pending(kept)))
  }

  lemma Absorb(lines: seq<string>, i: nat, settings: seq<Setting>, line: string, isMultiline: bool)
    requires i < |lines| && Assembled(lines, i, settings, line, isMultiline)
    ensures var x := Trimmed(lines[i]);
            var joined := if isMultiline then line + x.text else x.text;
            if x.text == "" then Assembled(lines, i + 1, settings, line, isMultiline)
            else if x.multi then Assembled(lines, i + 1, settings, joined, true)
            else match SettingOf(joined)
                 case None => Assembled(lines, i + 1, settings, joined, false)
                 case Some(s) => Assembled(lines, i + 1, settings + [s], joined, false)
  {
    hide Kept, Logical, Pending, Settings, SettingOf, Trimmed;
    LinePush(lines, i);
    var pending, x := Pending(Kept(lines[..i])), Trimmed(lines[i]);
    assert Text(pending) + x.text == if isMultiline then line + x.text else x.text;
    assert settings + [] == settings;
  }

  /** The reading loop: `lines` are what `fgets` delivers. */
  method ReadConf(lines: seq<string>) returns (settings: seq<Setting>)
    requires forall i | 0 <= i < |lines| :: |lines[i]| < FILELINE_SIZE && '\0' !in lines[i]
    ensures settings == Settings(Logical(Kept(lines)))
  {
    settings := [];
    var fileline := new char[FILELINE_SIZE];
    var line, isMultiline := "", false;
    for i := 0 to |lines|
      invariant Assembled(lines, i, settings, line, isMultiline) && '\0' !in line
    {
      hide Assembled, Trimmed, SettingOf, Str, Terminated;
      Absorb(lines, i, settings, line, isMultiline);
      StrCpy(fileline, lines[i]);
      var n, tmp := Trim(fileline, false);
      if n == 0 {
        continue;
      }
      n := StrLen(fileline);
      if isMultiline {
        line := line + fileline[..n];
      } else {
        line := fileline[..n];
      }
      isMultiline := tmp;
      if isMultiline {
        continue;
      }
      var setting := ReadSetting(line);
      if setting.Some? {
        settings := settings + [setting.value];
      }
    }
    assert lines[..|lines|] == lines;
  }

  /** Splits a logical line held in a buffer of its own. */
  method ReadSetting(line: string) returns (setting: Option<Setting>)
    requires '\0' !in line
    ensures setting == SettingOf(line)
  {
    var buffer := new char[|line| + 1];
    StrCpy(buffer, line);
    var key, args := SplitKey(buffer);
    if key == None {
      return None;
    }
    var k := TailString(buffer, key.value);
    if args == None {
      return Some(Setting(k, None));
    }
    var a := TailString(buffer, args.value);
    return Some(Setting(k, Some(a)));
  }

  /** The C string that starts at offset `i`. */
  method TailString(s: array<char>, i: nat) returns (t: string)
    requires i <= s.Length && Terminated(s[i..])
    ensures t == Str(s[i..])
  {
    StrSpec(s[i..]);
    ghost var want := Str(s[i..]);
    t := "";
    while s[i + |t|] != '\0'
      invariant |t| <= |want| && t == want[..|t|]
      decreases |want| - |t|
    {
      assert s[i..][|t|] == want[|t|];
      t := t + [s[i + |t|]];
    }
  }

  /** No logical line is without a key, so none is silently ignored. */
  lemma {:induction false} LogicalHasKey(ls: seq<Line>, i: nat)
    requires forall j | 0 <= j < |ls| && !ls[j].multi :: ls[j].text != "" && !White(ls[j].text[0])
    requires i < |Logical(ls)|
    ensures SettingOf(Logical(ls)[i]).Some?
    decreases |ls|
  {
    hide Logical, FirstEnd, Text, SettingOf;
    var k := FirstEnd(ls);
    if k == |ls| {
      NothingEnds(ls);
    } else if i > 0 {
      LogicalUnfold(ls, k);
      LogicalHasKey(ls[k + 1..], i - 1);
    } else {
      LogicalUnfold(ls, k);
      TextPush(ls[..k], ls[k]);
      assert ls[..k + 1] == ls[..k] + [ls[k]];
      var t, j := Text(ls[..k + 1]), |Text(ls[..k])|;
      assert t[j] == ls[k].text[0];
      SettingParts(t);
    }
  }

  lemma {:induction false} KeptStarts(lines: seq<string>)
    ensures forall l | l in Kept(lines) :: l.text != "" && (!l.multi ==> !White(l.text[0]))
  {
    if lines != [] {
      var n := |lines| - 1;
      KeptStarts(lines[..n]);
      if Trimmed(lines[n]).text != "" && !Trimmed(lines[n]).multi {
        TrimmedIsClean(lines[n]);
      }
    }
  }

  lemma {:induction false} SettingsComplete(ls: seq<string>)
    requires forall i | 0 <= i < |ls| :: SettingOf(ls[i]).Some?
    ensures |Settings(ls)| == |ls|
    ensures forall i | 0 <= i < |ls| :: Settings(ls)[i] == SettingOf(ls[i]).value
  {
    hide SettingOf;
    if ls != [] {
      var n := |ls| - 1;
      assert SettingOf(ls[n]).Some?;
      SettingsComplete(ls[..n]);
    }
  }

  /** Every logical line of a configuration file has a key, so each yields one setting. */
  lemma EveryLogicalLineCounts(lines: seq<string>)
    ensures var ls := Logical(Kept(lines));
            && |Settings(ls)| == |ls|
            && forall i | 0 <= i < |ls| :: SettingOf(ls[i]).Some? && Settings(ls)[i] == SettingOf(ls[i]).value
  {
    var kept := Kept(lines);
    KeptStarts(lines);
    forall i | 0 <= i < |Logical(kept)|
      ensures SettingOf(Logical(kept)[i]).Some?
    {
      LogicalHasKey(kept, i);
    }
    SettingsComplete(Logical(kept));
  }
}
