/** Trimming one line of a configuration file. */
module Trimming {
  import opened CString

  // ---------- what trimming means ----------

  predicate White(c: char) {
    c == '\n' || c == '\r' || c == '\t' || c == ' '
  }

  predicate Blank(c: char) {
    c == '\t' || c == ' '
  }

  /** Characters a line continuation may consist of. */
  predicate Continues(c: char) {
    c == '\n' || c == '\r' || c == '\\'
  }

  function StripLeft(s: string): string {
    if s != "" && White(s[0]) then StripLeft(s[1..]) else s
  }

  function StripRight(s: string): string {
    if s == "" then ""
    else
      var r := StripRight(s[1..]);
      if r == "" && White(s[0]) then "" else [s[0]] + r
  }

  /** A '#' after a space or tab starts a comment. */
  predicate CommentAt(u: string, k: nat) {
    0 < k < |u| && u[k] == '#' && Blank(u[k - 1])
  }

  /** The first comment at or after `i`, or the end. */
  function FirstComment(u: string, i: nat): (k: nat)
    requires i <= |u|
    ensures i <= k <= |u| && (k < |u| ==> CommentAt(u, k))
    ensures forall j | i <= j < k :: !CommentAt(u, j)
    decreases |u| - i
  {
    if i == |u| || CommentAt(u, i) then i else FirstComment(u, i + 1)
  }

  /** Where the maximal suffix of line ends and backslashes begins. */
  function ContinuationStart(v: string): (p: nat)
    ensures p <= |v| && (p > 0 ==> !Continues(v[p - 1]))
    ensures forall i | p <= i < |v| :: Continues(v[i])
  {
    if v == "" then 0
    else
      var p := ContinuationStart(v[1..]);
      if p == 0 && Continues(v[0]) then 0 else p + 1
  }

  /** The backslashes of `t` from position `p` on become spaces. */
  function BlankFrom(t: string, p: nat): (r: string)
    ensures |r| == |t|
  {
    seq(|t|, i requires 0 <= i < |t| => if i >= p && t[i] == '\\' then ' ' else t[i])
  }

  datatype Line = Line(text: string, multi: bool)

  /** Trimming a line without comment: the right is stripped, a backslash in the
      continuation suffix announces that the next line belongs to this one. */
  function TrimTail(v: string): Line {
    var p := ContinuationStart(v);
    Line(BlankFrom(StripRight(v), p), '\\' in v[p..])
  }

  function Trimmed(s: string): Line {
    var u := StripLeft(s);
    if u == "" || u[0] == '#' then Line("", false)
    else
      var k := FirstComment(u, 0);
      if k < |u| then Line(StripRight(u[..k]), false) else TrimTail(u)
  }

  // ---------- the right-to-left pass ----------

  /** What the pass has made of `u[i..]`: the text up to the first NUL, the two flags and `multl`. */
  datatype Crop = Crop(text: string, b: bool, bnl: bool, multl: bool)

  function CropStep(u: string, i: nat, r: Crop): Crop
    requires i < |u|
  {
    var b := r.b || !White(u[i]);
    var bnl := r.bnl || !Continues(u[i]);
    var joins := !r.bnl && u[i] == '\\';
    if !b || CommentAt(u, i) then Crop("", false, bnl, r.multl && !CommentAt(u, i))
    else Crop([if joins then ' ' else u[i]] + r.text, b, bnl, r.multl || joins)
  }

  function Cropped(u: string, i: nat): Crop
    requires i <= |u|
    decreases |u| - i
  {
    if i == |u| then Crop("", false, false, false) else CropStep(u, i, Cropped(u, i + 1))
  }

  /** The flag-driven pass computes the cut, the stripping and the continuation at once. */
  lemma {:induction false} CroppedIs(u: string, i: nat)
    requires i <= |u|
    ensures var r, k, v := Cropped(u, i), FirstComment(u, i), u[i..];
            && (k < |u| ==> r == Crop(StripRight(u[i..k]), StripRight(u[i..k]) != "", true, false))
            && (k == |u| ==> r == Crop(TrimTail(v).text, TrimTail(v).text != "", ContinuationStart(v) > 0, TrimTail(v).multi))
    decreases |u| - i
  {
    hide StripRight, ContinuationStart, TrimTail, CommentAt;
    if i == |u| {
      NothingBehind(u);
    } else {
      CroppedIs(u, i + 1);
      var c, k := u[i], FirstComment(u, i);
      if CommentAt(u, i) {
        CommentHere(u, i);
      } else if k < |u| {
        StripRightPush(c, u[i + 1..k]);
        assert u[i..k] == [c] + u[i + 1..k];
      } else {
        assert u[i..] == [c] + u[i + 1..];
        TailStart(c, u[i + 1..]);
        TailMulti(c, u[i + 1..]);
        TailText(c, u[i + 1..]);
      }
    }
  }

  lemma NothingBehind(u: string)
    ensures u[|u|..] == "" && TrimTail("") == Line("", false) && ContinuationStart("") == 0
  {
  }

  lemma CommentHere(u: string, i: nat)
    requires i < |u| && CommentAt(u, i)
    ensures u[i..i] == "" && StripRight("") == "" && !White(u[i]) && !Continues(u[i])
  {
  }

  lemma TailStart(c: char, v: string)
    ensures ContinuationStart([c] + v) > 0 <==> ContinuationStart(v) > 0 || !Continues(c)
  {
    hide ContinuationStart;
    ContinuationPush(c, v);
  }

  lemma TailMulti(c: char, v: string)
    ensures TrimTail([c] + v).multi == (TrimTail(v).multi || (ContinuationStart(v) == 0 && c == '\\'))
  {
    hide ContinuationStart, BlankFrom, StripRight;
    ContinuationPush(c, v);
  }

  /** Either the new character is cropped like everything behind it, or it comes in front. */
  lemma TailText(c: char, v: string)
    ensures TrimTail(v).text == "" && White(c) ==> TrimTail([c] + v).text == ""
    ensures TrimTail(v).text != "" || !White(c) ==>
              var joins := ContinuationStart(v) == 0 && c == '\\';
              TrimTail([c] + v).text == [if joins then ' ' else c] + TrimTail(v).text
  {
    hide ContinuationStart, BlankFrom, StripRight;
    var p, r := ContinuationStart(v), StripRight(v);
    StripRightPush(c, v);
    ContinuationPush(c, v);
    BlankPush(c, r, p);
    if r == "" && White(c) {
      BlankPush(c, r, ContinuationStart([c] + v));
    }
  }

  lemma StripRightPush(c: char, v: string)
    ensures StripRight([c] + v) == if StripRight(v) == "" && White(c) then "" else [c] + StripRight(v)
  {
    assert ([c] + v)[1..] == v;
  }

  lemma ContinuationPush(c: char, v: string)
    ensures var p, p' := ContinuationStart(v), ContinuationStart([c] + v);
            && p' == (if p == 0 then (if Continues(c) then 0 else 1) else p + 1)
            && ([c] + v)[p'..] == if p' == 0 then [c] + v[p..] else v[p..]
  {
    assert ([c] + v)[1..] == v;
  }

  lemma BlankPush(c: char, t: string, p: nat)
    ensures BlankFrom([c] + t, p + 1) == [c] + BlankFrom(t, p)
    ensures BlankFrom([c] + t, 0) == [if c == '\\' then ' ' else c] + BlankFrom(t, 0)
    ensures BlankFrom("", p) == ""
    ensures c != '\\' ==> BlankFrom([c] + t, 0) == [c] + BlankFrom(t, 0)
  {
  }

  // ---------- the code ----------

  method Trim(s: array<char>, multiline: bool) returns (len: nat, multiline': bool)
    requires Terminated(s[..])
    modifies s
    ensures Terminated(s[..])
    ensures var line := Trimmed(old(Str(s[..])));
            && Str(s[..]) == line.text && len == |line.text|
            && multiline' == if old(Str(s[..])) == "" then multiline else line.multi
    ensures forall i | |old(Str(s[..]))| < i < s.Length :: s[i] == old(s[i])
  {
    ghost var t := Str(s[..]);
    len := StrLen(s);
    if len == 0 {
      return 0, multiline;
    }
    var kept := TrimBeginning(s, len);
    if !kept {
      return 0, false;
    }
    len := StrLen(s);
    CroppedIs(Str(s[..]), 0);
    assert Str(s[..])[0..] == Str(s[..]);
    multiline' := CropTail(s, len);
    len := StrLen(s);
  }

  /** The first pass: drops leading white space, and everything if a comment follows it. */
  method TrimBeginning(s: array<char>, len: nat) returns (kept: bool)
    requires len < s.Length && s[len] == '\0' && '\0' !in s[..len]
    modifies s
    ensures var u := StripLeft(old(s[..len]));
            && kept == !(u != "" && u[0] == '#')
            && Terminated(s[..]) && Str(s[..]) == (if kept then u else "")
            && |u| <= len
    ensures forall i | len < i < s.Length :: s[i] == old(s[i])
  {
    ghost var t := s[..len];
    var out, b := "", false;
    StripLeftIsSuffix(t);
    BegunStart(t);
    for i := 0 to len
      invariant forall k | 0 <= k < s.Length :: s[k] == old(s[k])
      invariant Begun(t, i, out, b)
    {
      hide Begun, StripLeft, Str, Terminated;
      BegunStep(t, i, out, b);
      if !b {
        b := !White(s[i]);
      }
      if b {
        if out == "" && s[i] == '#' {
          StrCpy(s, "");
          return false;
        }
        out := out + [s[i]];
      }
    }
    BegunEnd(t, out, b);
    StrCpy(s, out);
    kept := true;
  }

  /** The first pass before character `i`: `out` is what it has copied, `b` whether it copies. */
  predicate Begun(t: string, i: nat, out: string, b: bool)
    requires i <= |t|
  {
    if b then out != "" && out[0] != '#' && StripLeft(t) == out + t[i..]
    else out == "" && StripLeft(t) == StripLeft(t[i..])
  }

  lemma BegunStart(t: string)
    ensures Begun(t, 0, "", false)
  {
    assert t[0..] == t;
  }

  lemma BegunStep(t: string, i: nat, out: string, b: bool)
    requires i < |t| && Begun(t, i, out, b)
    ensures !b && White(t[i]) ==> Begun(t, i + 1, out, false)
    ensures (b || !White(t[i])) && !(out == "" && t[i] == '#') ==> Begun(t, i + 1, out + [t[i]], true)
    ensures !White(t[i]) && out == "" && t[i] == '#' ==> StripLeft(t) != "" && StripLeft(t)[0] == '#'
  {
    hide StripLeft, White;
    CopyOne(out, t, i);
    if !b {
      StripLeftStep(t, i);
      CopyOne("", t, i);
    }
  }

  lemma CopyOne(out: string, t: string, i: nat)
    requires i < |t|
    ensures out + t[i..] == out + [t[i]] + t[i + 1..] && (out == "" ==> out + [t[i]] == [t[i]])
  {
  }

  lemma BegunEnd(t: string, out: string, b: bool)
    requires Begun(t, |t|, out, b)
    ensures out == StripLeft(t) && !(out != "" && out[0] == '#')
  {
    assert t[|t|..] == "" && out + "" == out;
  }

  lemma {:induction false} StripLeftIsSuffix(s: string)
    ensures |StripLeft(s)| <= |s| && StripLeft("") == ""
    ensures '\0' !in s ==> '\0' !in StripLeft(s)
  {
    if s != "" && White(s[0]) {
      StripLeftIsSuffix(s[1..]);
    }
  }

  lemma StripLeftStep(t: string, i: nat)
    requires i < |t|
    ensures StripLeft(t[i..]) == if White(t[i]) then StripLeft(t[i + 1..]) else [t[i]] + t[i + 1..]
  {
    assert t[i..] == [t[i]] + t[i + 1..];
  }

  /** The second pass, from the last character to the first. */
  method CropTail(s: array<char>, len: nat) returns (multl: bool)
    requires len < s.Length && s[len] == '\0' && '\0' !in s[..len]
    modifies s
    ensures Terminated(s[..])
    ensures var r := Cropped(old(s[..len]), 0); Str(s[..]) == r.text && multl == r.multl
    ensures forall i | len <= i < s.Length :: s[i] == old(s[i])
  {
    ghost var u := s[..len];
    var b, bnl := false, false;
    multl := false;
    var i := len;
    assert Terminated(s[i..]) && Str(s[i..]) == "" && Cropped(u, i) == Crop("", b, bnl, multl);
    hide Str, Terminated, Cropped;
    while i > 0
      invariant 0 <= i <= len && forall k | 0 <= k < i :: s[k] == u[k]
      invariant forall k | len <= k < s.Length :: s[k] == old(s[k])
      invariant Terminated(s[i..])
      invariant Crop(Str(s[i..]), b, bnl, multl) == Cropped(u, i)
    {
      i := i - 1;
      ghost var rest := s[i + 1..];
      CroppedStep(u, i);
      var c := s[i];
      if !b {
        b := !White(c);
      }
      if !bnl {
        bnl := !Continues(c);
        if !bnl && c == '\\' {
          multl := true;
          c := ' ';
        }
      }
      if !b {
        c := '\0';
      }
      if b && c == '#' && i > 0 && Blank(s[i - 1]) {
        c := '\0';
        b := false;
        multl := false;
      }
      s[i] := c;
      assert s[i..] == [c] + rest;
      StrPush(c, rest);
    }
    assert s[0..] == s[..];
  }

  lemma CroppedStep(u: string, i: nat)
    requires i < |u|
    ensures Cropped(u, i) == CropStep(u, i, Cropped(u, i + 1))
  {
  }

  lemma StrPush(c: char, rest: seq<char>)
    requires Terminated(rest)
    ensures Terminated([c] + rest) && Str([c] + rest) == if c == '\0' then "" else [c] + Str(rest)
  {
    assert ([c] + rest)[1..] == rest;
  }
}
