/** Splitting a configuration line into key and arguments. */
module KeySplitting {
  import opened CString
  import opened Trimming
  import opened Wrappers

  /** The first character at or after `i` that is blank (or, with `skip`, that is not), or the end. */
  function Scan(t: string, i: nat, skip: bool): (j: nat)
    requires i <= |t|
    ensures i <= j <= |t| && (forall k | i <= k < j :: Blank(t[k]) == skip)
    ensures j < |t| ==> Blank(t[j]) != skip
    decreases |t| - i
  {
    if i < |t| && Blank(t[i]) == skip then Scan(t, i + 1, skip) else i
  }

  function KeyStart(t: string): nat {
    Scan(t, 0, true)
  }

  function KeyEnd(t: string): nat {
    Scan(t, KeyStart(t), false)
  }

  function ArgsStart(t: string): nat {
    Scan(t, KeyEnd(t), true)
  }

  method SplitKey(s: array<char>) returns (pkey: Option<nat>, pargs: Option<nat>)
    requires Terminated(s[..])
    modifies s
    ensures |old(Str(s[..]))| < s.Length
    ensures var t, was := old(Str(s[..])), old(s[..]);
            var k, e, a := KeyStart(t), KeyEnd(t), ArgsStart(t);
            && pkey == (if k < |t| then Some(k) else None)
            && pargs == (if a < |t| then Some(a) else None)
            && s[..] == (if e < |t| then was[e := '\0'] else was)
            && (k < |t| ==> Terminated(s[k..]) && Str(s[k..]) == t[k..e])
            && (a < |t| ==> Terminated(s[a..]) && Str(s[a..]) == t[a..])
  {
    pkey, pargs := None, None;
    ghost var t, was := Str(s[..]), s[..];
    ghost var k, e, a := KeyStart(t), KeyEnd(t), ArgsStart(t);
    var b1, b2, b3 := false, false, false;
    assert 0 <= k <= e <= a <= |t|;
    var len := StrLen(s);
    hide KeyStart, KeyEnd, ArgsStart, Str, Terminated;
    for i := 0 to len
      invariant b1 == (k < i) && b2 == (e < i) && b3 == (a < i)
      invariant pkey == (if k < i then Some(k) else None)
      invariant pargs == (if a < i then Some(a) else None)
      invariant forall m | 0 <= m < s.Length :: s[m] == if m == e < i then '\0' else was[m]
    {
      var c := s[i];
      assert s[i] == t[i];
      if !b1 {
        b1 := !Blank(s[i]);
        if b1 {
          pkey := Some(i);
        }
      }
      if b1 && !b2 {
        b2 := Blank(s[i]);
        if b2 {
          c := '\0';
        }
      }
      if b1 && b2 && !b3 {
        b3 := !Blank(s[i]);
        if b3 {
          pargs := Some(i);
        }
      }
      s[i] := c;
    }
    FoundStrings(t, was, s[..]);
  }

  lemma PartsOrdered(t: string)
    ensures KeyStart(t) <= KeyEnd(t) <= ArgsStart(t) <= |t|
    ensures ArgsStart(t) < |t| ==> KeyEnd(t) < ArgsStart(t)
  {
  }

  lemma FoundStrings(t: string, was: seq<char>, now: seq<char>)
    requires |t| < |was| && was[|t|] == '\0' && was[..|t|] == t && '\0' !in t
    requires |now| == |was| && forall m | 0 <= m < |was| :: now[m] == if m == KeyEnd(t) < |t| then '\0' else was[m]
    ensures var k, e, a := KeyStart(t), KeyEnd(t), ArgsStart(t);
            && now == (if e < |t| then was[e := '\0'] else was)
            && (k < |t| ==> Terminated(now[k..]) && Str(now[k..]) == t[k..e])
            && (a < |t| ==> Terminated(now[a..]) && Str(now[a..]) == t[a..])
  {
    var k, e, a := KeyStart(t), KeyEnd(t), ArgsStart(t);
    hide KeyStart, KeyEnd, ArgsStart, Str, Terminated, Scan;
    PartsOrdered(t);
    assert now == if e < |t| then was[e := '\0'] else was;
    if k < |t| {
      StringAt(t, was, now, k, e);
    }
    if a < |t| {
      StringAt(t, was, now, a, |t|);
    }
  }

  lemma StringAt(t: string, was: seq<char>, now: seq<char>, i: nat, j: nat)
    requires |t| < |was| && was[..|t|] == t && '\0' !in t
    requires i <= j <= |t| && j < |now| && now[j] == '\0' && forall m | i <= m < j :: now[m] == was[m]
    ensures Terminated(now[i..]) && Str(now[i..]) == t[i..j]
  {
    hide Terminated, Str;
    forall m | i <= m < j
      ensures now[m] == t[m]
    {
      assert t[m] == was[..|t|][m];
    }
    assert now[i..][..j - i] == t[i..j];
    StrIs(now[i..], j - i);
  }

  datatype Setting = Setting(key: string, args: Option<string>)

  /** What `SplitKey` makes of a line, as strings. */
  function SettingOf(t: string): Option<Setting> {
    var k, e, a := KeyStart(t), KeyEnd(t), ArgsStart(t);
    if k == |t| then None else Some(Setting(t[k..e], if a < |t| then Some(t[a..]) else None))
  }

  predicate AllBlank(t: string) {
    forall i | 0 <= i < |t| :: t[i] == ' ' || t[i] == '\t'
  }

  predicate NoBlank(t: string) {
    forall i | 0 <= i < |t| :: t[i] != ' ' && t[i] != '\t'
  }

  /** A line is white space, key, white space, arguments, and this division is unique:
      the key has no blank and the arguments start with none. */
  lemma SettingIs(lead: string, key: string, gap: string, args: string)
    requires AllBlank(lead) && NoBlank(key) && AllBlank(gap)
    requires (key == "" ==> gap == args == "") && (args != "" ==> gap != "" && args[0] != ' ' && args[0] != '\t')
    ensures var t := lead + key + gap + args;
            && KeyStart(t) == |lead| && KeyEnd(t) == |lead + key| && ArgsStart(t) == |lead + key + gap|
            && SettingOf(t) == if key == "" then None else Some(Setting(key, if args == "" then None else Some(args)))
  {
    var t := lead + key + gap + args;
    var k, e, a := |lead|, |lead| + |key|, |lead| + |key| + |gap|;
    ScanIs(t, 0, true, k);
    ScanIs(t, k, false, e);
    ScanIs(t, e, true, a);
    assert t[k..e] == key && t[a..] == args;
  }

  lemma ScanIs(t: string, i: nat, skip: bool, j: nat)
    requires i <= j <= |t| && (forall k | i <= k < j :: Blank(t[k]) == skip)
    requires j < |t| ==> Blank(t[j]) != skip
    ensures Scan(t, i, skip) == j
  {
  }

  lemma SettingParts(t: string)
    ensures var k, e, a := KeyStart(t), KeyEnd(t), ArgsStart(t);
            && t == t[..k] + t[k..e] + t[e..a] + t[a..]
            && AllBlank(t[..k]) && NoBlank(t[k..e]) && AllBlank(t[e..a])
            && (SettingOf(t) == None <==> AllBlank(t))
  {
  }
}
