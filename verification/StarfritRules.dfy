/** Who is told about a measurement: the rule table and its configuration string. */
module StarfritRules {
  import opened CString
  import opened Trimming

  const MAX_CONF := 128
  const HTTP := "http://"

  datatype Rule = Rule(min: real, max: real, url: string)

  // ---------- strtok(args, ";") ----------

  /** The first index at or after `i` where being a separator differs from `sep`, or the end. */
  function Skip(s: string, i: nat, sep: bool): (j: nat)
    requires i <= |s|
    ensures i <= j <= |s| && (j < |s| ==> (s[j] == ';') != sep)
    ensures forall k | i <= k < j :: (s[k] == ';') == sep
    decreases |s| - i
  {
    if i < |s| && (s[i] == ';') == sep then Skip(s, i + 1, sep) else i
  }

  /** The tokens from position `i` on: maximal non-empty stretches without ';'. */
  function Tokens(s: string, i: nat): seq<string>
    requires i <= |s|
    decreases |s| - i
  {
    var a := Skip(s, i, true);
    var b := Skip(s, a, false);
    if a == |s| then [] else [s[a..b]] + Tokens(s, b)
  }

  method StrTok(s: string, pos: nat) returns (found: bool, a: nat, b: nat)
    requires pos <= |s|
    ensures a == Skip(s, pos, true) && b == Skip(s, a, false) && found == (a < |s|)
  {
    a := pos;
    while a < |s| && s[a] == ';'
      invariant a <= |s| && Skip(s, pos, true) == Skip(s, a, true)
    {
      a := a + 1;
    }
    b := a;
    while b < |s| && s[b] != ';'
      invariant b <= |s| && Skip(s, a, false) == Skip(s, b, false)
    {
      b := b + 1;
    }
    found := a < |s|;
  }

  // ---------- what the configuration means ----------

  function Clamp(x: real): real {
    if x < 0.0 then 0.0 else x
  }

  predicate IsUrl(t: string) {
    HTTP <= Trimmed(t).text
  }

  /** The rules of a token list: every complete triple whose third token is a URL. */
  function RulesOf(atof: string -> real, toks: seq<string>): seq<Rule> {
    if |toks| < 3 then []
    else
      (if IsUrl(toks[2]) then [RuleFor(atof, toks[0], toks[1], toks[2])] else []) + RulesOf(atof, toks[3..])
  }

  function Bound(atof: string -> real, t: string): real {
    Clamp(atof(Trimmed(t).text))
  }

  function RuleFor(atof: string -> real, min: string, max: string, url: string): Rule {
    Rule(Bound(atof, min), Bound(atof, max), Trimmed(url).text)
  }

  /** Characters the tokens take up, a separator each. */
  function Size(toks: seq<string>): nat {
    if toks == [] then 0 else |toks[0]| + 1 + Size(toks[1..])
  }

  lemma TrimmedShorter(s: string)
    ensures |Trimmed(s).text| <= |s|
  {
    StripLeftIsSuffix(s);
    var u := StripLeft(s);
    StripRightShorter(u);
    StripRightShorter(u[..FirstComment(u, 0)]);
  }

  lemma StripRightShorter(s: string)
    ensures |StripRight(s)| <= |s|
  {
  }

  lemma {:induction false} TokensFit(s: string, i: nat)
    requires i <= |s|
    ensures Size(Tokens(s, i)) <= |s| - i + 1
    ensures i < |s| && s[i] == ';' ==> Size(Tokens(s, i)) <= |s| - i
    ensures i == |s| ==> Tokens(s, i) == []
    ensures forall k | 0 <= k < |Tokens(s, i)| :: Tokens(s, i)[k] != ""
    decreases |s| - i
  {
    var a := Skip(s, i, true);
    var b := Skip(s, a, false);
    if a < |s| {
      TokensFit(s, b);
      assert ([s[a..b]] + Tokens(s, b))[1..] == Tokens(s, b);
    }
  }

  lemma {:induction false} RulesAreLong(atof: string -> real, toks: seq<string>)
    requires forall i | 0 <= i < |toks| :: toks[i] != ""
    ensures 12 * |RulesOf(atof, toks)| <= Size(toks)
  {
    if |toks| >= 3 {
      RulesAreLong(atof, toks[3..]);
      TrimmedShorter(toks[2]);
      assert toks[1..][1..] == toks[2..] && toks[2..][1..] == toks[3..];
      assert Size(toks[2..]) == |toks[2]| + 1 + Size(toks[3..]);
      assert Size(toks) == |toks[0]| + 1 + |toks[1]| + 1 + Size(toks[2..]);
    }
  }

  /** Semicolons, a token, and what follows the token; or nothing but semicolons. */
  lemma TokensIs(seps: string, token: string, rest: string)
    requires forall i | 0 <= i < |seps| :: seps[i] == ';'
    requires forall i | 0 <= i < |token| :: token[i] != ';'
    requires if token == "" then rest == "" else rest == "" || rest[0] == ';'
    ensures Tokens(seps + token + rest, 0) == if token == "" then [] else [token] + Tokens(rest, 0)
  {
    hide Tokens, Skip;
    var s, b := seps + token + rest, |seps + token|;
    TokenPlace(seps, token, rest);
    if token == "" {
      NoTokens(s, 0);
    } else {
      TokensPush(s, 0);
      TokensBehind(s, b, 0);
    }
  }

  lemma NoTokens(s: string, i: nat)
    requires i <= |s| && Skip(s, i, true) == |s|
    ensures Tokens(s, i) == []
  {
  }

  lemma TokenPlace(seps: string, token: string, rest: string)
    requires forall i | 0 <= i < |seps| :: seps[i] == ';'
    requires forall i | 0 <= i < |token| :: token[i] != ';'
    requires if token == "" then rest == "" else rest == "" || rest[0] == ';'
    ensures var s, a, b := seps + token + rest, |seps|, |seps + token|;
            && Skip(s, 0, true) == a && Skip(s, a, false) == b && s[a..b] == token && s[b..] == rest
  {
    hide Skip;
    var s, a, b := seps + token + rest, |seps|, |seps + token|;
    SkipIs(s, 0, true, a);
    SkipIs(s, a, false, b);
  }

  lemma SkipIs(s: string, i: nat, sep: bool, j: nat)
    requires i <= j <= |s| && (forall k | i <= k < j :: (s[k] == ';') == sep) && (j < |s| ==> (s[j] == ';') != sep)
    ensures Skip(s, i, sep) == j
  {
  }

  /** Tokens do not depend on what came before. */
  lemma {:induction false} TokensBehind(s: string, b: nat, i: nat)
    requires b + i <= |s|
    ensures Tokens(s, b + i) == Tokens(s[b..], i)
    decreases |s| - i
  {
    hide Tokens, Skip;
    var u := s[b..];
    var j := Skip(u, i, true);
    SkipBehind(s, b, i, true);
    if j < |u| {
      var k := Skip(u, j, false);
      SkipBehind(s, b, j, false);
      TokensPush(u, i);
      TokensPush(s, b + i);
      TokensBehind(s, b, k);
      SliceBehind(s, b, j, k);
    } else {
      NoTokens(u, i);
      NoTokens(s, b + i);
    }
  }

  lemma SliceBehind(s: string, b: nat, j: nat, k: nat)
    requires j <= k && b + k <= |s|
    ensures s[b..][j..k] == s[b + j..b + k]
  {
  }

  lemma SkipBehind(s: string, b: nat, i: nat, sep: bool)
    requires b + i <= |s|
    ensures Skip(s, b + i, sep) == b + Skip(s[b..], i, sep)
  {
    var j := Skip(s[b..], i, sep);
    forall k | b + i <= k < b + j
      ensures (s[k] == ';') == sep
    {
      assert s[k] == s[b..][k - b];
    }
    SkipIs(s, b + i, sep, b + j);
  }

  /** Three tokens make a rule if the third is a URL: two bounds, negative ones counting as
      zero, and the URL; an incomplete rest makes none. */
  lemma RulesOfThree(atof: string -> real, a: string, b: string, c: string, rest: seq<string>)
    ensures var min, max, url := atof(Trimmed(a).text), atof(Trimmed(b).text), Trimmed(c).text;
            RulesOf(atof, [a, b, c] + rest) ==
            (if "http://" <= url then [Rule(if min < 0.0 then 0.0 else min, if max < 0.0 then 0.0 else max, url)] else [])
            + RulesOf(atof, rest)
    ensures |rest| < 3 ==> RulesOf(atof, rest) == []
  {
    hide Trimmed;
    assert ([a, b, c] + rest)[3..] == rest;
  }

  /** A configuration string of `|s|` characters holds at most `(|s| + 1) / 12` rules. */
  lemma RuleCapacity(atof: string -> real, s: string)
    ensures 12 * |RulesOf(atof, Tokens(s, 0))| <= |s| + 1
  {
    TokensFit(s, 0);
    RulesAreLong(atof, Tokens(s, 0));
  }

  // ---------- the table ----------

  /** Does `r` want to hear of weight `w`? A bound that is not positive is no bound. */
  predicate Matches(r: Rule, w: real) {
    (r.min <= 0.0 || r.min <= w) && (r.max <= 0.0 || r.max > w)
  }

  /** The URLs called for a weight, in table order. */
  function Selected(rules: seq<Rule>, w: real): seq<string> {
    if rules == [] then []
    else
      var r := rules[|rules| - 1];
      Selected(rules[..|rules| - 1], w) + if Matches(r, w) then [r.url] else []
  }

  class RuleTable {
    const slots: array<Rule>
    var count: nat

    ghost predicate Valid()
      reads this
    {
      slots.Length == MAX_CONF && count <= MAX_CONF
    }

    function Rules(): seq<Rule>
      requires count <= slots.Length
      reads this, slots
    {
      slots[..count]
    }

    constructor ()
      ensures Valid() && Rules() == [] && fresh(slots)
    {
      slots := new Rule[MAX_CONF](_ => Rule(0.0, 0.0, ""));
      count := 0;
    }

    /** The slot under construction agrees with the tokens of the triple read so far. */
    ghost predicate Building(atof: string -> real, part: seq<string>)
      requires Valid()
      reads this, slots
    {
      && |part| < 3 && count < MAX_CONF
      && (|part| >= 1 ==> slots[count].min == Bound(atof, part[0]))
      && (|part| == 2 ==> slots[count].max == Bound(atof, part[1]))
    }

    /** One trimmed token `p`, number `n`; `rest` are the tokens after it. */
    method Take(p: string, n: nat, atof: string -> real, ghost part: seq<string>, ghost t: string, ghost rest: seq<string>)
      returns (ghost part': seq<string>)
      requires Valid() && Building(atof, part) && |part| == n % 3 && p == Trimmed(t).text
      requires |Rules()| <= 85
      modifies this, slots
      ensures Valid() && Building(atof, part') && |part'| == (n + 1) % 3
      ensures Rules() + RulesOf(atof, part' + rest) == old(Rules()) + RulesOf(atof, part + [t] + rest)
    {
      hide RulesOf, Trimmed;
      ghost var rules := Rules();
      match n % 3 {
        case 0 =>
          slots[count] := slots[count].(min := Clamp(atof(p)));
          part' := part + [t];
          assert Rules() == rules;
        case 1 =>
          slots[count] := slots[count].(max := Clamp(atof(p)));
          part' := part + [t];
          assert Rules() == rules;
        case _ =>
          part' := [];
          ghost var after := RulesOf(atof, part' + rest);
          RulesOfTriple(atof, part + [t], rest);
          if HTTP <= p {
            slots[count] := slots[count].(url := p);
            count := count + 1;
            assert Rules() == rules + [slots[count - 1]];
            assert rules + ([slots[count - 1]] + after) == Rules() + after;
          } else {
            assert Rules() == rules && rules + ([] + after) == rules + after;
          }
      }
    }

    /** Half way: `part` of a triple is in the slot under construction, `pos` is reached. */
    ghost predicate Parsing(atof: string -> real, args: string, pos: nat, part: seq<string>)
      requires pos <= |args|
      reads this, slots
    {
      && Valid() && Building(atof, part)
      && RulesOf(atof, Tokens(args, 0)) == Rules() + RulesOf(atof, part + Tokens(args, pos))
    }

    method TakeToken(args: string, ghost pos: nat, a: nat, b: nat, n: nat, atof: string -> real, ghost part: seq<string>)
      returns (ghost part': seq<string>)
      requires pos <= |args| <= 1023 && Parsing(atof, args, pos, part) && |part| == n % 3 && '\0' !in args
      requires a == Skip(args, pos, true) < |args| && b == Skip(args, a, false)
      modifies this, slots
      ensures Parsing(atof, args, b, part') && |part'| == (n + 1) % 3
    {
      hide RulesOf, Tokens, Skip, Building;
      RuleCapacity(atof, args);
      TokensPush(args, pos);
      var p := TrimToken(args, a, b);
      ghost var t := args[a..b];
      assert part + Tokens(args, pos) == part + [t] + Tokens(args, b);
      part' := Take(p, n, atof, part, t, Tokens(args, b));
    }

    /** Parses "min;max;url;..." into the table, once, at start-up; `atof` is the C library's.
        The configuration holds the string in 1024 bytes. */
    method Setup(args: string, atof: string -> real)
      requires Valid() && count == 0 && |args| <= 1023 && '\0' !in args
      modifies this, slots
      ensures Valid()
      ensures Rules() == RulesOf(atof, Tokens(args, 0))
      ensures 12 * count <= |args| + 1 && count <= 85
    {
      ghost var part: seq<string> := [];
      assert part + Tokens(args, 0) == Tokens(args, 0);
      var n, pos := 0, 0;
      var found, a, b := StrTok(args, pos);
      while found
        invariant pos <= |args| && |part| == n % 3 && Parsing(atof, args, pos, part)
        invariant a == Skip(args, pos, true) && b == Skip(args, a, false) && found == (a < |args|)
        decreases |args| - pos
      {
        hide *;
        TokensPush(args, pos);
        part := TakeToken(args, pos, a, b, n, atof, part);
        n, pos := n + 1, b;
        found, a, b := StrTok(args, pos);
      }
      hide RulesOf, Tokens, Skip, Building;
      RulesOfRest(atof, part, args, pos);
      RuleCapacity(atof, args);
    }
  }

  lemma RulesOfTriple(atof: string -> real, part: seq<string>, rest: seq<string>)
    requires |part| == 3
    ensures RulesOf(atof, part + rest) ==
            (if HTTP <= Trimmed(part[2]).text then [RuleFor(atof, part[0], part[1], part[2])] else []) + RulesOf(atof, [] + rest)
  {
    assert (part + rest)[3..] == rest == [] + rest;
  }

  lemma RulesOfRest(atof: string -> real, part: seq<string>, s: string, i: nat)
    requires |part| < 3 && i <= |s| && Skip(s, i, true) == |s|
    ensures RulesOf(atof, part + Tokens(s, i)) == []
  {
  }

  lemma TokensPush(s: string, i: nat)
    requires i <= |s| && Skip(s, i, true) < |s|
    ensures var a := Skip(s, i, true);
            var b := Skip(s, a, false);
            a < b && Tokens(s, i) == [s[a..b]] + Tokens(s, b)
  {
  }

  /** `trim` on the token `args[a..b]`. */
  method TrimToken(args: string, a: nat, b: nat) returns (p: string)
    requires a <= b <= |args| && '\0' !in args
    ensures p == Trimmed(args[a..b]).text
  {
    var s := new char[b - a + 1];
    StrCpy(s, args[a..b]);
    var n, _ := Trim(s, false);
    n := StrLen(s);
    p := s[..n];
  }
}
