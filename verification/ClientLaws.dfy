/** What a service pass does to the table, and what the table means. */
module ClientLaws {
  import opened Clients
  import opened Wrappers

  // ---------- one pass ----------

  /** The clients a pass drops. */
  function Dropped(w: World, t: seq<int>): set<int> {
    if t == [] || Talks(w, t[0]) then {}
    else if !Gone(w, t[0]) then Dropped(w, t[1..])
    else {t[0]} + if |t| == 1 then {} else Dropped(w, t[2..])
  }

  /** `t` without the sockets in `dropped`. */
  function Without(t: seq<int>, dropped: set<int>): seq<int> {
    if t == [] then []
    else (if t[0] in dropped then [] else [t[0]]) + Without(t[1..], dropped)
  }

  lemma {:induction false} WithoutStranger(t: seq<int>, dropped: set<int>, s: int)
    requires s !in t
    ensures Without(t, {s} + dropped) == Without(t, dropped)
  {
    if t != [] {
      WithoutStranger(t[1..], dropped, s);
    }
  }

  lemma {:induction false} DroppedAreGone(w: World, t: seq<int>, s: int)
    requires s in Dropped(w, t)
    ensures s in t && Gone(w, s)
  {
    if !Gone(w, t[0]) {
      DroppedAreGone(w, t[1..], s);
    } else if s != t[0] {
      DroppedAreGone(w, t[2..], s);
    }
  }

  lemma DistinctTail(t: seq<int>, k: nat)
    requires Distinct(t) && k <= |t|
    ensures Distinct(t[k..]) && forall i | 0 <= i < k :: t[i] !in t[k..]
  {
  }

  /** A pass leaves the table in order, without the dropped clients, all of which have gone;
      the client behind a dropped one is passed over; a served client is one that talks. */
  lemma {:induction false} PassDrops(w: World, t: seq<int>)
    requires Distinct(t)
    ensures Walk(w, t).table == Without(t, Dropped(w, t))
    ensures forall s | s in Dropped(w, t) :: s in t && s in w.ready && w.read(s) == ""
    ensures forall i | 0 < i < |t| :: !(t[i] in Dropped(w, t) && t[i - 1] in Dropped(w, t))
    ensures Walk(w, t).served.Some? ==>
              var s := Walk(w, t).served.value; s in t && s in w.ready && w.read(s) != ""
  {
    if t == [] {
    } else if Talks(w, t[0]) {
      WithoutNothing(t);
    } else if !Gone(w, t[0]) {
      DistinctTail(t, 1);
      PassDrops(w, t[1..]);
      NotDropped(w, t[1..], t[0]);
      forall i | 0 < i < |t|
        ensures !(t[i] in Dropped(w, t) && t[i - 1] in Dropped(w, t))
      {
        if i > 1 {
          assert t[i] == t[1..][i - 1] && t[i - 1] == t[1..][i - 2];
        }
      }
    } else if |t| == 1 {
      assert t[1..] == [];
    } else {
      var rest := Dropped(w, t[2..]);
      DistinctTail(t, 1);
      DistinctTail(t, 2);
      PassDrops(w, t[2..]);
      NotDropped(w, t[2..], t[0]);
      NotDropped(w, t[2..], t[1]);
      WithoutStranger(t[1..], rest, t[0]);
      assert t[1..][1..] == t[2..];
      forall i | 0 < i < |t|
        ensures !(t[i] in Dropped(w, t) && t[i - 1] in Dropped(w, t))
      {
        if i > 2 {
          assert t[i] == t[2..][i - 2] && t[i - 1] == t[2..][i - 3];
          assert t[0] != t[i] && t[0] != t[i - 1];
        }
      }
    }
  }

  lemma NotDropped(w: World, t: seq<int>, s: int)
    requires s !in t
    ensures s !in Dropped(w, t)
  {
    if s in Dropped(w, t) {
      DroppedAreGone(w, t, s);
    }
  }

  lemma {:induction false} WithoutNothing(t: seq<int>)
    ensures Without(t, {}) == t
  {
    if t != [] {
      WithoutNothing(t[1..]);
    }
  }

  /** Not ready: below the sockets that exist, or nothing to read from it. */
  predicate Idle(w: World, s: int) {
    s < 0 || s !in w.ready
  }

  lemma IdleHead(w: World, x: int, t: seq<int>)
    requires Idle(w, x)
    ensures Walk(w, [x] + t) == Pass([x] + Walk(w, t).table, Walk(w, t).served)
    ensures Dropped(w, [x] + t) == Dropped(w, t)
  {
    assert ([x] + t)[1..] == t;
  }

  lemma {:induction false} IdleFirst(w: World, a: seq<int>, t: seq<int>)
    requires forall j | 0 <= j < |a| :: Idle(w, a[j])
    ensures Walk(w, a + t) == Pass(a + Walk(w, t).table, Walk(w, t).served)
    ensures Dropped(w, a + t) == Dropped(w, t)
  {
    hide Walk, Dropped, Idle;
    var r := Walk(w, t).table;
    if a == [] {
      assert a + t == t && a + r == r;
    } else {
      IdleFirst(w, a[1..], t);
      IdleHead(w, a[0], a[1..] + t);
      assert a + t == [a[0]] + (a[1..] + t) && a + r == [a[0]] + (a[1..] + r);
    }
  }

  lemma ReadyFirst(w: World, t: seq<int>)
    requires t != [] && t[0] >= 0 && t[0] in w.ready
    ensures w.read(t[0]) != "" ==> Walk(w, t) == Pass(t, Some(t[0]))
    ensures w.read(t[0]) == "" ==> t[0] in Dropped(w, t)
    ensures w.read(t[0]) == "" && |t| == 1 ==> Walk(w, t) == Pass([], None)
    ensures w.read(t[0]) == "" && |t| > 1 ==>
              var r := Walk(w, t[2..]); Walk(w, t) == Pass([t[1]] + r.table, r.served)
  {
  }

  /** Nothing happens to the clients before the lowest-indexed ready one. If some data come from
      that one, it is served and the pass ends; if none, it leaves the table, the next one is
      passed over, and the pass goes on behind it. */
  lemma LowestFirst(w: World, t: seq<int>, i: nat)
    requires i <= |t| && forall j | 0 <= j < i :: Idle(w, t[j])
    ensures i == |t| ==> Walk(w, t) == Pass(t, None)
    ensures i < |t| && t[i] >= 0 && t[i] in w.ready ==>
              && (w.read(t[i]) != "" ==> Walk(w, t) == Pass(t, Some(t[i])))
              && (w.read(t[i]) == "" ==> t[i] in Dropped(w, t))
              && (w.read(t[i]) == "" && i + 1 == |t| ==> Walk(w, t) == Pass(t[..i], None))
              && (w.read(t[i]) == "" && i + 1 < |t| ==>
                    var r := Walk(w, t[i + 2..]); Walk(w, t) == Pass(t[..i] + ([t[i + 1]] + r.table), r.served))
  {
    var a, u := t[..i], t[i..];
    assert t == a + u;
    IdleFirst(w, a, u);
    if i < |t| && t[i] >= 0 && t[i] in w.ready {
      ReadyFirst(w, u);
      hide Walk, Dropped, Idle;
      assert i + 1 < |t| ==> u[2..] == t[i + 2..];
      assert a + [] == a;
    }
  }

  /** A client with nothing to read keeps its place and is not served; only a client that was
      ready and had nothing to say leaves. */
  lemma {:induction false} OnlyReadyAffected(w: World, t: seq<int>, s: int)
    requires s in t
    ensures s !in w.ready ==> s in Walk(w, t).table && Walk(w, t).served != Some(s)
    ensures s !in Walk(w, t).table ==> s in w.ready && w.read(s) == ""
    ensures Walk(w, t).served == Some(s) ==> s in w.ready && w.read(s) != ""
  {
    if t != [] && !Talks(w, t[0]) {
      var m := if Gone(w, t[0]) then 2 else 1;
      if m <= |t| {
        if s in t[m..] {
          OnlyReadyAffected(w, t[m..], s);
        } else {
          ServedIsThere(w, t[m..]);
        }
      }
    }
  }

  lemma {:induction false} ServedIsThere(w: World, t: seq<int>)
    ensures Walk(w, t).served.Some? ==> Walk(w, t).served.value in t
  {
    if t != [] && !Talks(w, t[0]) && (!Gone(w, t[0]) || |t| > 1) {
      ServedIsThere(w, t[if Gone(w, t[0]) then 2 else 1..]);
    }
  }

  // ---------- who gets a turn ----------

  /** How many clients directly before index `j` have gone. */
  function Block(w: World, t: seq<int>, j: nat): nat
    requires j <= |t|
  {
    if j == 0 || !Gone(w, t[j - 1]) then 0 else 1 + Block(w, t, j - 1)
  }

  lemma {:induction false} BlockIs(w: World, t: seq<int>, j: nat, k: nat)
    requires k <= j <= |t|
    ensures k == Block(w, t, j) <==>
            (forall i | j - k <= i < j :: Gone(w, t[i])) && (k < j ==> !Gone(w, t[j - k - 1]))
  {
    if k > 0 {
      BlockIs(w, t, j - 1, k - 1);
    }
  }

  /** Not passed over: of a block of clients that have gone, and the client behind it, every other one. */
  predicate Visited(w: World, t: seq<int>, j: nat)
    requires j < |t|
  {
    Block(w, t, j) % 2 == 0
  }

  predicate InTurn(w: World, t: seq<int>, j: nat)
    requires j < |t|
  {
    Talks(w, t[j]) && Visited(w, t, j)
  }

  lemma {:induction false} BlockBehind(w: World, t: seq<int>, m: nat, i: nat)
    requires m + i <= |t| && 0 < |t|
    requires (m == 1 && !Gone(w, t[0])) || (m == 2 && Gone(w, t[0]))
    ensures Block(w, t[m..], i) % 2 == Block(w, t, m + i) % 2
  {
    hide Gone;
    if i > 0 {
      BlockBehind(w, t, m, i - 1);
      assert t[m..][i - 1] == t[m + i - 1];
    } else if m == 2 {
      assert Block(w, t, 1) == 1;
    }
  }

  lemma VisitedBehind(w: World, t: seq<int>, m: nat, i: nat)
    requires m + i < |t|
    requires (m == 1 && !Gone(w, t[0])) || (m == 2 && Gone(w, t[0]))
    ensures Visited(w, t[m..], i) <==> Visited(w, t, m + i)
    ensures InTurn(w, t[m..], i) <==> InTurn(w, t, m + i)
  {
    hide Gone, Talks, Block;
    BlockBehind(w, t, m, i);
  }

  /** Exactly who is served: the first client that talks and is not passed over, that is, with
      an even number of gone clients directly before it. */
  lemma {:induction false} ServedInTurn(w: World, t: seq<int>, j: nat)
    requires j <= |t| && (forall i | 0 <= i < j :: !InTurn(w, t, i))
    requires j < |t| ==> InTurn(w, t, j)
    ensures Walk(w, t).served == if j < |t| then Some(t[j]) else None
  {
    hide Talks, Gone, Visited;
    if t == [] {
    } else if Talks(w, t[0]) {
      FirstIsVisited(w, t);
    } else {
      var m := if Gone(w, t[0]) then 2 else 1;
      FirstIsVisited(w, t);
      if m <= |t| {
        InTurnBehind(w, t, m, j);
        ServedInTurn(w, t[m..], j - m);
      }
    }
  }

  lemma FirstIsVisited(w: World, t: seq<int>)
    requires t != []
    ensures Visited(w, t, 0) && InTurn(w, t, 0) == Talks(w, t[0])
    ensures Gone(w, t[0]) ==> !Talks(w, t[0])
    ensures Gone(w, t[0]) && |t| > 1 ==> !Visited(w, t, 1) && !InTurn(w, t, 1)
  {
    assert Gone(w, t[0]) && |t| > 1 ==> Block(w, t, 1) == 1;
  }

  lemma InTurnBehind(w: World, t: seq<int>, m: nat, j: nat)
    requires 0 < m <= |t| && j <= |t| && !Talks(w, t[0])
    requires (m == 1 && !Gone(w, t[0])) || (m == 2 && Gone(w, t[0]))
    requires forall i | 0 <= i < j :: !InTurn(w, t, i)
    requires j < |t| ==> InTurn(w, t, j)
    ensures m <= j && forall i | 0 <= i < j - m :: !InTurn(w, t[m..], i)
    ensures j < |t| ==> InTurn(w, t[m..], j - m)
  {
    hide Talks, Gone, Visited, InTurn;
    FirstIsVisited(w, t);
    forall i | 0 <= i < j - m
      ensures !InTurn(w, t[m..], i)
    {
      VisitedBehind(w, t, m, i);
    }
    if j < |t| {
      VisitedBehind(w, t, m, j - m);
    }
  }

  /** Exactly who is dropped: before the client that is served, if there is one, those that
      have gone and are not passed over. */
  lemma {:induction false} DroppedInTurn(w: World, t: seq<int>, j: nat, k: nat)
    requires Distinct(t) && k < |t|
    requires j <= |t| && (forall i | 0 <= i < j :: !InTurn(w, t, i))
    requires j < |t| ==> InTurn(w, t, j)
    ensures t[k] in Dropped(w, t) <==> k < j && Gone(w, t[k]) && Visited(w, t, k)
  {
    hide Talks, Gone, Visited, InTurn;
    FirstIsVisited(w, t);
    if !Talks(w, t[0]) {
      var m := if Gone(w, t[0]) then 2 else 1;
      if m <= |t| {
        InTurnBehind(w, t, m, j);
        DistinctTail(t, m);
        if k >= m {
          VisitedBehind(w, t, m, k - m);
          DroppedInTurn(w, t[m..], j - m, k - m);
        } else {
          NotDropped(w, t[m..], t[k]);
        }
      }
    }
  }

  // ---------- the table over a whole run ----------

  datatype Event = Connect(s: int) | Disconnect(s: int)

  /** The table after a run of events. */
  function TableAfter(es: seq<Event>): seq<int> {
    if es == [] then []
    else
      var t := TableAfter(es[..|es| - 1]);
      match es[|es| - 1]
      case Connect(s) => t + [s]
      case Disconnect(s) => Removed(t, s)
  }

  /** New sockets are fresh, only connected ones disconnect. */
  predicate Sensible(es: seq<Event>) {
    es == [] ||
    (Sensible(es[..|es| - 1]) &&
     match es[|es| - 1]
     case Connect(s) => s !in TableAfter(es[..|es| - 1])
     case Disconnect(s) => s in TableAfter(es[..|es| - 1]))
  }

  /** When `s` last connected, if it has not disconnected since. */
  function ConnectedSince(es: seq<Event>, s: int): Option<nat> {
    if es == [] then None
    else if es[|es| - 1] == Connect(s) then Some(|es| - 1)
    else if es[|es| - 1] == Disconnect(s) then None
    else ConnectedSince(es[..|es| - 1], s)
  }

  /** `t` lists exactly the live sockets. */
  ghost predicate Lists(es: seq<Event>, t: seq<int>) {
    forall s :: s in t <==> ConnectedSince(es, s).Some?
  }

  predicate Before(es: seq<Event>, s: int, s': int) {
    match (ConnectedSince(es, s), ConnectedSince(es, s'))
    case (Some(i), Some(j)) => i < j
    case _ => false
  }

  ghost predicate InOrder(es: seq<Event>, t: seq<int>) {
    forall i, j | 0 <= i < j < |t| :: Before(es, t[i], t[j])
  }

  lemma {:induction false} SinceBound(es: seq<Event>, s: int)
    ensures ConnectedSince(es, s).Some? ==> ConnectedSince(es, s).value < |es|
  {
    if es != [] {
      SinceBound(es[..|es| - 1], s);
    }
  }

  lemma SinceConnect(es: seq<Event>, s: int, x: int)
    ensures ConnectedSince(es + [Connect(s)], x) == if x == s then Some(|es|) else ConnectedSince(es, x)
  {
    assert (es + [Connect(s)])[..|es|] == es;
  }

  lemma SinceDisconnect(es: seq<Event>, s: int, x: int)
    ensures ConnectedSince(es + [Disconnect(s)], x) == if x == s then None else ConnectedSince(es, x)
  {
    assert (es + [Disconnect(s)])[..|es|] == es;
  }

  /** The first entry of a socket goes, or, if the socket is not there, the last entry. */
  lemma RemovedIs(before: seq<int>, s: int, behind: seq<int>)
    requires s !in before
    ensures Removed(before + [s] + behind, s) == before + behind
    ensures Removed(before, s) == if before == [] then [] else before[..|before| - 1]
  {
    var t := before + [s] + behind;
    IndexIs(t, s, |before|);
    IndexIs(before, s, |before|);
    assert t[..|before|] == before && t[|before| + 1..] == behind;
  }

  lemma IndexIs(t: seq<int>, s: int, i: nat)
    requires i <= |t| && s !in t[..i] && (i < |t| ==> t[i] == s)
    ensures IndexOf(t, s) == i
  {
    assert forall j | 0 <= j < i :: t[j] in t[..i];
  }

  lemma ConnectKeeps(es: seq<Event>, t: seq<int>, s: int)
    requires Lists(es, t) && InOrder(es, t) && s !in t
    ensures Lists(es + [Connect(s)], t + [s]) && InOrder(es + [Connect(s)], t + [s])
  {
    hide ConnectedSince;
    var es', t' := es + [Connect(s)], t + [s];
    forall x
      ensures x in t' <==> ConnectedSince(es', x).Some?
    {
      SinceConnect(es, s, x);
    }
    forall i, j | 0 <= i < j < |t'|
      ensures Before(es', t'[i], t'[j])
    {
      SinceConnect(es, s, t'[i]);
      SinceConnect(es, s, t'[j]);
      SinceBound(es, t'[i]);
    }
  }

  lemma DropMembers(t: seq<int>, k: nat)
    requires Distinct(t) && k < |t|
    ensures forall x :: x in t[..k] + t[k + 1..] <==> x in t && x != t[k]
  {
    assert t == t[..k] + [t[k]] + t[k + 1..];
  }

  lemma DisconnectKeeps(es: seq<Event>, t: seq<int>, k: nat)
    requires Lists(es, t) && InOrder(es, t) && Distinct(t) && k < |t|
    ensures Lists(es + [Disconnect(t[k])], t[..k] + t[k + 1..])
    ensures InOrder(es + [Disconnect(t[k])], t[..k] + t[k + 1..])
  {
    hide ConnectedSince, InOrder;
    forall x
      ensures x in t[..k] + t[k + 1..] <==> ConnectedSince(es + [Disconnect(t[k])], x).Some?
    {
      DropMembers(t, k);
      SinceDisconnect(es, t[k], x);
    }
    DisconnectKeepsOrder(es, t, k);
  }

  lemma DisconnectKeepsOrder(es: seq<Event>, t: seq<int>, k: nat)
    requires InOrder(es, t) && Distinct(t) && k < |t|
    ensures InOrder(es + [Disconnect(t[k])], t[..k] + t[k + 1..])
  {
    hide ConnectedSince;
    var es', t' := es + [Disconnect(t[k])], t[..k] + t[k + 1..];
    forall i, j | 0 <= i < j < |t'|
      ensures Before(es', t'[i], t'[j])
    {
      var i', j' := if i < k then i else i + 1, if j < k then j else j + 1;
      assert t'[i] == t[i'] && t'[j] == t[j'] && Before(es, t[i'], t[j']);
      SinceDisconnect(es, t[k], t[i']);
      SinceDisconnect(es, t[k], t[j']);
    }
  }

  /** The table always lists the live sockets, each once, in order of connection. */
  lemma {:induction false} TableIsLive(es: seq<Event>)
    requires Sensible(es)
    ensures Lists(es, TableAfter(es)) && InOrder(es, TableAfter(es)) && Distinct(TableAfter(es))
  {
    hide Lists, InOrder, Removed;
    if es == [] {
      NobodyLive();
    } else {
      var init, t := es[..|es| - 1], TableAfter(es[..|es| - 1]);
      TableIsLive(init);
      assert es == init + [es[|es| - 1]];
      match es[|es| - 1] {
        case Connect(s) =>
          ConnectKeeps(init, t, s);
        case Disconnect(s) =>
          var k :| 0 <= k < |t| && t[k] == s;
          RemovedAt(t, k);
          DisconnectKeeps(init, t, k);
      }
    }
  }

  lemma NobodyLive()
    ensures Lists([], []) && InOrder([], [])
  {
  }
}
