/** What trimming does, in plain characters, and what trimming a trimmed line does. */
module TrimmingLaws {
  import opened Trimming

  lemma {:induction false} StripLeftIs(s: string)
    ensures var u := StripLeft(s);
            && |u| <= |s| && u == s[|s| - |u|..] && (u != "" ==> !White(u[0]))
            && forall i | 0 <= i < |s| - |u| :: White(s[i])
  {
    if s != "" && White(s[0]) {
      var rest := s[1..];
      StripLeftIs(rest);
      assert s == [s[0]] + rest;
      forall i | 0 <= i < |s| - |StripLeft(s)|
        ensures White(s[i])
      {
        assert i > 0 ==> White(rest[i - 1]);
      }
    }
  }

  lemma {:induction false} StripRightIs(s: string)
    ensures var r := StripRight(s);
            && |r| <= |s| && r == s[..|r|] && (r != "" ==> !White(r[|r| - 1]))
            && forall i | |r| <= i < |s| :: White(s[i])
  {
    if s != "" {
      StripRightIs(s[1..]);
      assert s == [s[0]] + s[1..];
    }
  }

  // ---------- trimming, spelled out ----------

  predicate IsSpace(c: char) {
    c == ' ' || c == '\t' || c == '\r' || c == '\n'
  }

  predicate AllWhite(s: string) {
    forall i | 0 <= i < |s| :: IsSpace(s[i])
  }

  /** From `i` on there are only line ends and backslashes. */
  predicate OnlyEnds(s: string, i: nat) {
    forall j | i <= j < |s| :: s[j] == '\n' || s[j] == '\r' || s[j] == '\\'
  }

  /** A backslash with only line ends and backslashes behind it. */
  predicate Continued(s: string) {
    exists i | 0 <= i < |s| :: s[i] == '\\' && OnlyEnds(s, i + 1)
  }

  /** A '#' behind a space or tab, or with only white space before it. */
  predicate Commented(s: string) {
    exists x | 0 <= x < |s| :: Hash(s, x)
  }

  lemma ContinuationReaches(u: string, i: nat)
    requires i < |u| && u[i] == '\\'
    ensures ContinuationStart(u) <= i <==> OnlyEnds(u, i + 1)
  {
    var p := ContinuationStart(u);
    if p <= i {
      assert forall j | i < j < |u| :: Continues(u[j]);
    } else {
      assert !Continues(u[p - 1]) && p - 1 != i;
    }
  }

  lemma OnlyEndsBehind(lead: string, u: string, i: nat)
    ensures OnlyEnds(lead + u, |lead| + i) <==> OnlyEnds(u, i)
  {
    var s := lead + u;
    if OnlyEnds(s, |lead| + i) {
      assert forall j | i <= j < |u| :: u[j] == s[|lead| + j];
    }
  }

  lemma TailContinues(u: string)
    ensures TrimTail(u).multi <==> Continued(u)
  {
    var p := ContinuationStart(u);
    if TrimTail(u).multi {
      var k :| 0 <= k < |u[p..]| && u[p..][k] == '\\';
      ContinuationReaches(u, p + k);
    }
    if Continued(u) {
      var i :| 0 <= i < |u| && u[i] == '\\' && OnlyEnds(u, i + 1);
      ContinuationReaches(u, i);
      assert u[p..][i - p] == '\\';
    }
  }

  lemma ContinuedBehind(lead: string, u: string)
    requires AllWhite(lead)
    ensures Continued(lead + u) <==> Continued(u)
  {
    hide OnlyEnds;
    var s := lead + u;
    if Continued(s) {
      var i :| 0 <= i < |s| && s[i] == '\\' && OnlyEnds(s, i + 1);
      assert i >= |lead|;
      OnlyEndsBehind(lead, u, i - |lead| + 1);
      assert u[i - |lead|] == '\\';
    }
    if Continued(u) {
      var i :| 0 <= i < |u| && u[i] == '\\' && OnlyEnds(u, i + 1);
      OnlyEndsBehind(lead, u, i + 1);
      assert s[|lead| + i] == '\\';
    }
  }

  /** A '#' at `x` that starts a comment. */
  predicate Hash(s: string, x: nat)
    requires x < |s|
  {
    s[x] == '#' && (AllWhite(s[..x]) || (x > 0 && (s[x - 1] == ' ' || s[x - 1] == '\t')))
  }

  /** `lead` is the white space at the start of `lead + u`. */
  lemma HashBehind(lead: string, u: string, x: nat)
    requires AllWhite(lead) && u != "" && !White(u[0]) && x < |lead + u|
    ensures Hash(lead + u, x) <==> x >= |lead| && u[x - |lead|] == '#' && (x == |lead| || CommentAt(u, x - |lead|))
  {
    var s, m := lead + u, |lead|;
    if x < m {
      assert s[x] == lead[x];
    } else if x == m {
      assert s[..x] == lead;
    } else {
      assert s[..x][m] == u[0];
    }
  }

  lemma CommentedIs(lead: string, u: string)
    requires AllWhite(lead) && (u != "" ==> !White(u[0]))
    ensures Commented(lead + u) <==> u != "" && (u[0] == '#' || FirstComment(u, 0) < |u|)
  {
    hide Hash;
    var s, m := lead + u, |lead|;
    if u == "" {
      NoHash(lead);
      assert s == lead;
    } else {
      forall x | 0 <= x < |s|
        ensures Hash(s, x) <==> x >= m && u[x - m] == '#' && (x == m || CommentAt(u, x - m))
      {
        HashBehind(lead, u, x);
      }
      var k := FirstComment(u, 0);
      assert u[0] == '#' ==> Hash(s, m);
      assert k < |u| ==> Hash(s, m + k);
    }
  }

  lemma NoHash(lead: string)
    requires AllWhite(lead)
    ensures !Commented(lead)
  {
  }

  /** A line goes on in the next one exactly when it ends in a backslash, but for line ends and
      more backslashes, and has no comment. */
  lemma ContinuesExactly(s: string)
    ensures Trimmed(s).multi <==> Continued(s) && !Commented(s)
  {
    hide Continued, Commented, ContinuationStart, OnlyEnds;
    var u := StripLeft(s);
    StripLeftIs(s);
    var lead := s[..|s| - |u|];
    assert s == lead + u;
    ContinuedBehind(lead, u);
    CommentedIs(lead, u);
    TailContinues(u);
    if u == "" {
      NothingContinues();
    }
  }

  lemma NothingContinues()
    ensures !Continued("")
  {
  }

  /** A line as white space, text, white space and comment. */
  predicate IsLine(lead: string, body: string, tail: string, comment: string) {
    && AllWhite(lead) && AllWhite(tail)
    && (comment != "" ==> comment[0] == '#')
    && (body == "" ==> tail == "")
    && (body != "" ==>
          && body[0] != '#' && !IsSpace(body[0]) && !IsSpace(body[|body| - 1])
          && (comment != "" ==> tail != "" && (tail[|tail| - 1] == ' ' || tail[|tail| - 1] == '\t'))
          && forall j | 0 < j < |body| :: !(body[j] == '#' && (body[j - 1] == ' ' || body[j - 1] == '\t')))
  }

  /** The text is kept, except that a backslash that continues the line becomes a space. */
  lemma TextIs(lead: string, body: string, tail: string, comment: string)
    requires IsLine(lead, body, tail, comment)
    ensures var s := lead + (body + tail + comment);
            var text := Trimmed(s).text;
            && |text| == |body|
            && forall i | 0 <= i < |body| ::
                 text[i] == if comment == "" && body[i] == '\\' && OnlyEnds(s, |lead| + i + 1) then ' ' else body[i]
  {
    hide OnlyEnds, ContinuationStart;
    var u := body + tail + comment;
    StripLeftOver(lead, u);
    if body != "" {
      FirstCommentIs(body, tail, comment);
      StripRightOver(body, tail);
      assert u[..|body + tail|] == body + tail;
      if comment == "" {
        assert u == body + tail;
        forall i | 0 <= i < |body| && body[i] == '\\'
          ensures ContinuationStart(u) <= i <==> OnlyEnds(lead + u, |lead| + i + 1)
        {
          ContinuationReaches(u, i);
          OnlyEndsBehind(lead, u, i + 1);
        }
      }
    }
  }

  /** Every line can be written so. */
  lemma LineParts(s: string) returns (lead: string, body: string, tail: string, comment: string)
    ensures IsLine(lead, body, tail, comment) && s == lead + (body + tail + comment)
  {
    var u := StripLeft(s);
    StripLeftIs(s);
    lead, body, tail, comment := s[..|s| - |u|], "", "", u;
    if u != "" && u[0] != '#' {
      body, tail, comment := PartsBehind(u);
    }
  }

  lemma PartsBehind(u: string) returns (body: string, tail: string, comment: string)
    requires u != "" && u[0] != '#' && !White(u[0])
    ensures IsLine("", body, tail, comment) && u == body + tail + comment && body != ""
  {
    var k := FirstComment(u, 0);
    var v := u[..k];
    StripRightIs(v);
    StartStays(u, k);
    body := StripRight(v);
    tail, comment := v[|body|..], u[k..];
    PrefixHasNoComment(u, body, k);
    hide StripRight, FirstComment;
    assert v == body + tail && u == v + comment;
    forall i | 0 <= i < |tail|
      ensures IsSpace(tail[i])
    {
      assert White(v[|body| + i]);
    }
    forall j | 0 < j < |body|
      ensures !(body[j] == '#' && (body[j - 1] == ' ' || body[j - 1] == '\t'))
    {
      assert !CommentAt(body, j);
    }
    if comment != "" {
      assert CommentAt(u, k) && u[k - 1] == v[k - 1] == tail[|tail| - 1];
    }
  }

  lemma StartStays(u: string, k: nat)
    requires u != "" && !White(u[0]) && k == FirstComment(u, 0)
    ensures k > 0 && StripRight(u[..k]) != "" && StripRight(u[..k])[0] == u[0]
    ensures k < |u| ==> |StripRight(u[..k])| < k
  {
    var v := u[..k];
    StripRightIs(v);
    assert k > 0 && v[0] == u[0];
    assert v[k - 1] == u[k - 1];
  }

  lemma {:induction false} StripLeftOver(lead: string, u: string)
    requires AllWhite(lead) && (u != "" ==> !White(u[0]))
    ensures StripLeft(lead + u) == u
  {
    if lead == "" {
      assert lead + u == u;
    } else {
      StripLeftOver(lead[1..], u);
      assert lead + u == [lead[0]] + (lead[1..] + u);
    }
  }

  lemma StripRightOver(body: string, tail: string)
    requires body != "" && !White(body[|body| - 1]) && AllWhite(tail)
    ensures StripRight(body + tail) == body
  {
    var t, r := body + tail, StripRight(body + tail);
    StripRightIs(t);
    assert t[|body| - 1] == body[|body| - 1];
    assert forall i | |body| <= i < |t| :: t[i] == tail[i - |body|];
    assert r != "" ==> r[|r| - 1] == t[|r| - 1];
    assert t[..|body|] == body;
  }

  lemma FirstCommentIs(body: string, tail: string, comment: string)
    requires IsLine("", body, tail, comment) && body != ""
    ensures FirstComment(body + tail + comment, 0) == |body + tail|
  {
    var u, n, k := body + tail + comment, |body|, |body + tail|;
    forall j | 0 <= j < k
      ensures !CommentAt(u, j)
    {
      assert u[j] == if j < n then body[j] else tail[j - n];
      assert 0 < j < n ==> u[j - 1] == body[j - 1];
    }
    if comment != "" {
      assert u[k] == comment[0] && u[k - 1] == tail[|tail| - 1];
      assert CommentAt(u, k);
    }
  }

  // ---------- trimming a trimmed line ----------

  /** No white space at either end and no comment anywhere. */
  predicate Clean(x: string) {
    && x != "" && !White(x[0]) && x[0] != '#' && !White(x[|x| - 1])
    && forall j | 0 <= j < |x| :: !CommentAt(x, j)
  }

  /** Without continuation, trimming keeps the text before the comment and strips its right. */
  lemma NotJoined(s: string)
    requires !Trimmed(s).multi && Trimmed(s).text != ""
    ensures var u := StripLeft(s); Trimmed(s).text == StripRight(u[..FirstComment(u, 0)])
  {
    var u := StripLeft(s);
    if FirstComment(u, 0) == |u| {
      var p, r := ContinuationStart(u), StripRight(u);
      assert u[..|u|] == u;
      StripRightIs(u);
      assert forall i | p <= i < |u| :: u[i] == u[p..][i - p];
      assert BlankFrom(r, p) == r;
    }
  }

  lemma PrefixHasNoComment(u: string, r: string, k: nat)
    requires |r| <= k <= |u| && r == u[..|r|] && forall j | 0 <= j < k :: !CommentAt(u, j)
    ensures forall j | 0 <= j < |r| :: !CommentAt(r, j)
  {
    forall j | 0 <= j < |r|
      ensures !CommentAt(r, j)
    {
      assert !CommentAt(u, j);
    }
  }

  lemma TrimmedIsClean(s: string)
    requires !Trimmed(s).multi && Trimmed(s).text != ""
    ensures Clean(Trimmed(s).text)
  {
    var u := StripLeft(s);
    var k := FirstComment(u, 0);
    NotJoined(s);
    StripLeftIs(s);
    StripRightIs(u[..k]);
    PrefixHasNoComment(u, StripRight(u[..k]), k);
  }

  lemma CleanIsFixed(x: string)
    requires Clean(x)
    ensures x[|x| - 1] == '\\' ==> Trimmed(x).multi && Trimmed(x).text != x
    ensures x[|x| - 1] != '\\' ==> Trimmed(x) == Line(x, false)
  {
    var n := |x|;
    assert StripLeft(x) == x && FirstComment(x, 0) == n;
    StripRightIs(x);
    assert StripRight(x) == x;
    var p := ContinuationStart(x);
    if x[n - 1] == '\\' {
      assert p < n && x[p..][n - 1 - p] == '\\';
      assert Trimmed(x).text[n - 1] == ' ';
    } else {
      assert p == n;
      assert BlankFrom(x, n) == x;
    }
  }

  lemma JoinedEndsInSpace(s: string)
    requires Trimmed(s).multi
    ensures var t := Trimmed(s).text; t != "" && t[|t| - 1] == ' '
  {
    var u := StripLeft(s);
    var p := ContinuationStart(u);
    var i :| 0 <= i < |u[p..]| && u[p..][i] == '\\';
    StripRightIs(u);
    var r := StripRight(u);
    assert u[p + i] == '\\' && p + i < |r|;
    assert Continues(u[|r| - 1]);
  }

  lemma TrailingSpaceGoes(x: string)
    requires x != "" && x[|x| - 1] == ' '
    ensures Trimmed(x).text != x
  {
    StripLeftIs(x);
    var u := StripLeft(x);
    if u != "" && u[0] != '#' {
      assert u[|u| - 1] == ' ';
      var k := FirstComment(u, 0);
      StripRightIs(u);
      StripRightIs(u[..k]);
      assert |Trimmed(x).text| < |u|;
    }
  }

  /** Trimming a trimmed line changes nothing, unless the line was continued or ends in a backslash. */
  lemma TrimAgain(s: string)
    ensures var r := Trimmed(s);
            var again := Trimmed(r.text);
            && (again.text == r.text <==> !r.multi && !(r.text != "" && r.text[|r.text| - 1] == '\\'))
            && (again.text == r.text ==> again == r)
  {
    var r := Trimmed(s);
    if r.multi {
      JoinedEndsInSpace(s);
      TrailingSpaceGoes(r.text);
    } else if r.text != "" {
      TrimmedIsClean(s);
      CleanIsFixed(r.text);
    }
  }
}
