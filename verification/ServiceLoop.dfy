/** The daemon's main loop: what arrives, what becomes of the client table, what is sent. */
module ServiceLoop {
  import opened Bitwise
  import opened Clients
  import opened ClientLaws
  import opened Wrappers

  /** What `select` finds in one turn: samples, a connection (`csock` is what `accept`
      returns), or something from the clients. */
  datatype Round = Infrared(data: string) | Accept(csock: int) | Service(w: World)

  datatype Output = ToClient(csock: int, data: string) | ToDevice(data: string)

  /** The socket that joins the table in a turn; none if `accept` failed. */
  function Joining(r: Round): seq<int> {
    if r.Accept? && r.csock != -1 then [r.csock] else []
  }

  function TableOf(t: seq<int>, r: Round): seq<int> {
    match r
    case Infrared(_) => t
    case Accept(_) => t + Joining(r)
    case Service(w) => Walk(w, t).table
  }

  function OutputOf(t: seq<int>, r: Round): seq<Output> {
    match r
    case Infrared(data) => if data == "" then [] else seq(|t|, i requires 0 <= i < |t| => ToClient(t[i], data))
    case Accept(_) => []
    case Service(w) => match Walk(w, t).served case None => [] case Some(s) => [ToDevice(w.read(s))]
  }

  /** The table after some turns that began with the table `t`. */
  function TableRun(t: seq<int>, rs: seq<Round>): seq<int> {
    if rs == [] then t else TableOf(TableRun(t, rs[..|rs| - 1]), rs[|rs| - 1])
  }

  function OutputRun(t: seq<int>, rs: seq<Round>): seq<Output> {
    if rs == [] then []
    else OutputRun(t, rs[..|rs| - 1]) + OutputOf(TableRun(t, rs[..|rs| - 1]), rs[|rs| - 1])
  }

  /** The system hands out a socket number only if it is not in use. */
  predicate FreshAccept(t: seq<int>, r: Round) {
    Joining(r) != [] ==> Joining(r)[0] !in t
  }

  predicate FreshAccepts(t: seq<int>, rs: seq<Round>) {
    forall i | 0 <= i < |rs| :: FreshAccept(TableRun(t, rs[..i]), rs[i])
  }

  predicate HasRoom(t: seq<int>, r: Round) {
    |t| + |Joining(r)| <= 100
  }

  /** Nobody connects to a full table. */
  predicate NeverFull(t: seq<int>, rs: seq<Round>) {
    forall i | 0 <= i < |rs| :: HasRoom(TableRun(t, rs[..i]), rs[i])
  }

  // ---------- the code ----------

  method RunLoop(clients: ClientTable, rs: seq<Round>) returns (out: seq<Output>)
    requires clients.Valid() && Distinct(clients.Table())
    requires FreshAccepts(clients.Table(), rs) && NeverFull(clients.Table(), rs)
    modifies clients, clients.slots
    ensures clients.Valid() && Distinct(clients.Table())
    ensures clients.Table() == TableRun(old(clients.Table()), rs)
    ensures out == OutputRun(old(clients.Table()), rs)
  {
    ghost var t := clients.Table();
    out := [];
    for n := 0 to |rs|
      invariant clients.Valid() && Distinct(clients.Table())
      invariant clients.Table() == TableRun(t, rs[..n]) && out == OutputRun(t, rs[..n])
    {
      RunPush(t, rs, n);
      var o := Turn(clients, rs[n]);
      out := out + o;
    }
    assert rs[..|rs|] == rs;
  }

  /** One turn of the loop. */
  method Turn(clients: ClientTable, r: Round) returns (out: seq<Output>)
    requires clients.Valid() && Distinct(clients.Table())
    requires FreshAccept(clients.Table(), r) && HasRoom(clients.Table(), r)
    modifies clients, clients.slots
    ensures clients.Valid() && Distinct(clients.Table())
    ensures clients.Table() == TableOf(old(clients.Table()), r) && out == OutputOf(old(clients.Table()), r)
  {
    hide Walk;
    out := [];
    match r {
      case Infrared(data) =>
        if |data| > 0 {
          var sends := clients.WriteToAllClients();
          out := seq(|sends|, i requires 0 <= i < |sends| => ToClient(sends[i], data));
        }
      case Accept(csock) =>
        clients.AddClient(csock);
      case Service(w) =>
        var forwarded := clients.Serve(w);
        out := seq(|forwarded|, i requires 0 <= i < |forwarded| => ToDevice(forwarded[i]));
    }
  }

  lemma RunPush(t: seq<int>, rs: seq<Round>, n: nat)
    requires n < |rs|
    ensures TableRun(t, rs[..n + 1]) == TableOf(TableRun(t, rs[..n]), rs[n])
    ensures OutputRun(t, rs[..n + 1]) == OutputRun(t, rs[..n]) + OutputOf(TableRun(t, rs[..n]), rs[n])
  {
    assert rs[..n + 1][..n] == rs[..n];
  }

  // ---------- the table lists the live sockets, all the time ----------

  /** The sockets of `t` that are in `s`, in order. */
  function Only(t: seq<int>, s: set<int>): seq<int> {
    if t == [] then []
    else Only(t[..|t| - 1], s) + if t[|t| - 1] in s then [t[|t| - 1]] else []
  }

  function Departures(t: seq<int>): seq<Event> {
    seq(|t|, i requires 0 <= i < |t| => Disconnect(t[i]))
  }

  /** What happens to connections in one turn. */
  function EventsOf(t: seq<int>, r: Round): seq<Event> {
    match r
    case Infrared(_) => []
    case Accept(csock) => if csock == -1 then [] else [Connect(csock)]
    case Service(w) => Departures(Only(t, Dropped(w, t)))
  }

  /** What happens to connections in a run of the daemon. */
  function EventRun(rs: seq<Round>): seq<Event> {
    if rs == [] then []
    else EventRun(rs[..|rs| - 1]) + EventsOf(TableRun([], rs[..|rs| - 1]), rs[|rs| - 1])
  }

  lemma ConnectPush(es: seq<Event>, s: int)
    ensures TableAfter(es + [Connect(s)]) == TableAfter(es) + [s]
    ensures Sensible(es + [Connect(s)]) <==> Sensible(es) && s !in TableAfter(es)
  {
    assert (es + [Connect(s)])[..|es|] == es;
  }

  lemma DisconnectPush(es: seq<Event>, s: int)
    ensures TableAfter(es + [Disconnect(s)]) == Removed(TableAfter(es), s)
    ensures Sensible(es + [Disconnect(s)]) <==> Sensible(es) && s in TableAfter(es)
  {
    assert (es + [Disconnect(s)])[..|es|] == es;
  }

  lemma {:induction false} WithoutPush(t: seq<int>, x: int, s: set<int>)
    ensures Without(t + [x], s) == Without(t, s) + if x in s then [] else [x]
  {
    if t == [] {
      assert [] + [x] == [x];
    } else {
      WithoutPush(t[1..], x, s);
      assert (t + [x])[1..] == t[1..] + [x];
    }
  }

  lemma OnlyPush(t: seq<int>, k: nat, s: set<int>)
    requires k < |t|
    ensures Departures(Only(t[..k + 1], s)) == Departures(Only(t[..k], s)) + if t[k] in s then [Disconnect(t[k])] else []
    ensures Without(t[..k + 1], s) == Without(t[..k], s) + if t[k] in s then [] else [t[k]]
  {
    assert t[..k + 1] == t[..k] + [t[k]];
    assert t[..k + 1][..k] == t[..k];
    WithoutPush(t[..k], t[k], s);
  }

  /** Disconnecting some of the sockets, one by one in table order, leaves the others. */
  lemma {:induction false} DepartInOrder(es: seq<Event>, t: seq<int>, s: set<int>, k: nat)
    requires Sensible(es) && TableAfter(es) == t && Distinct(t) && k <= |t|
    ensures var es' := es + Departures(Only(t[..k], s));
            Sensible(es') && TableAfter(es') == Without(t[..k], s) + t[k..]
    ensures Distinct(Without(t[..k], s) + t[k..])
  {
    hide Sensible, TableAfter, Distinct, Removed;
    if k == 0 {
      assert es + Departures(Only([], s)) == es && [] + t == t;
    } else {
      DepartInOrder(es, t, s, k - 1);
      OnlyPush(t, k - 1, s);
      var ds, next := Departures(Only(t[..k - 1], s)), if t[k - 1] in s then [Disconnect(t[k - 1])] else [];
      DepartNext(es + ds, Without(t[..k - 1], s), t, k - 1, s);
      assert es + (ds + next) == es + ds + next;
    }
  }

  /** One more socket of the table is dealt with: it stays, or it disconnects. */
  lemma DepartNext(es: seq<Event>, kept: seq<int>, t: seq<int>, k: nat, s: set<int>)
    requires k < |t| && Sensible(es) && TableAfter(es) == kept + t[k..] && Distinct(kept + t[k..])
    ensures var es', kept' := es + (if t[k] in s then [Disconnect(t[k])] else []), kept + if t[k] in s then [] else [t[k]];
            Sensible(es') && TableAfter(es') == kept' + t[k + 1..] && Distinct(kept' + t[k + 1..])
  {
    hide Sensible, TableAfter, Distinct, Removed;
    var tab := kept + t[k..];
    assert tab[|kept|] == t[k];
    if t[k] in s {
      DisconnectPush(es, t[k]);
      RemovedAt(tab, |kept|);
      assert tab[..|kept|] == kept && tab[|kept| + 1..] == t[k + 1..] && kept + [] == kept;
    } else {
      assert kept + [t[k]] + t[k + 1..] == tab && es + [] == es;
    }
  }

  lemma ServiceIsEvents(es: seq<Event>, w: World, t: seq<int>)
    requires Sensible(es) && TableAfter(es) == t && Distinct(t)
    ensures var es' := es + EventsOf(t, Service(w));
            Sensible(es') && TableAfter(es') == Walk(w, t).table
    ensures Distinct(Walk(w, t).table)
  {
    hide Sensible, TableAfter, Distinct, Dropped, Walk, Only, Without, Departures;
    PassDrops(w, t);
    DepartInOrder(es, t, Dropped(w, t), |t|);
    assert t[..|t|] == t && Without(t, Dropped(w, t)) + t[|t|..] == Without(t, Dropped(w, t));
  }

  lemma TurnIsEvents(es: seq<Event>, t: seq<int>, r: Round)
    requires Sensible(es) && TableAfter(es) == t && Distinct(t) && FreshAccept(t, r)
    ensures var es' := es + EventsOf(t, r);
            Sensible(es') && TableAfter(es') == TableOf(t, r)
    ensures Distinct(TableOf(t, r))
  {
    hide Sensible, TableAfter, Dropped, Walk, Only, Departures;
    assert es + [] == es && t + [] == t;
    match r {
      case Infrared(_) =>
      case Accept(csock) =>
        ConnectPush(es, csock);
      case Service(w) =>
        ServiceIsEvents(es, w, t);
    }
  }

  /** The daemon's turns are a sensible run of connections and disconnections. */
  lemma {:induction false} RunIsEvents(rs: seq<Round>)
    requires FreshAccepts([], rs)
    ensures Sensible(EventRun(rs)) && TableAfter(EventRun(rs)) == TableRun([], rs) && Distinct(TableRun([], rs))
  {
    hide Distinct, EventsOf, TableOf, FreshAccept;
    if rs != [] {
      var init := rs[..|rs| - 1];
      assert forall i | 0 <= i < |init| :: init[..i] == rs[..i];
      RunIsEvents(init);
      hide Sensible, TableAfter;
      TurnIsEvents(EventRun(init), TableRun([], init), rs[|rs| - 1]);
    } else {
      NoEvents();
    }
  }

  lemma NoEvents()
    ensures Sensible([]) && TableAfter([]) == [] && Distinct([])
  {
  }

  /** After any turns, the daemon's table lists the sockets that are connected, each once, in
      the order of connection. */
  lemma DaemonTableIsLive(rs: seq<Round>)
    requires FreshAccepts([], rs)
    ensures var es, t := EventRun(rs), TableRun([], rs); Lists(es, t) && InOrder(es, t) && Distinct(t)
  {
    RunIsEvents(rs);
    TableIsLive(EventRun(rs));
  }

  /** The daemon from its start: what it sends, and the sockets in its table at the end. */
  method Daemon(rs: seq<Round>) returns (live: seq<int>, out: seq<Output>)
    requires FreshAccepts([], rs) && NeverFull([], rs)
    ensures out == OutputRun([], rs)
    ensures Lists(EventRun(rs), live) && InOrder(EventRun(rs), live) && Distinct(live)
  {
    var clients := new ClientTable();
    out := RunLoop(clients, rs);
    live := clients.WriteToAllClients();
    DaemonTableIsLive(rs);
  }

  // ---------- what is sent ----------

  /** The data sent to client `s`, in order. */
  function SentTo(s: int, out: seq<Output>): seq<string> {
    if out == [] then []
    else
      var o := out[|out| - 1];
      SentTo(s, out[..|out| - 1]) + if o.ToClient? && o.csock == s then [o.data] else []
  }

  /** The samples that arrived while `s` was in the table, in order. */
  function HeardBy(s: int, rs: seq<Round>): seq<string> {
    if rs == [] then []
    else
      var init, r := rs[..|rs| - 1], rs[|rs| - 1];
      HeardBy(s, init) + if r.Infrared? && r.data != "" && s in TableRun([], init) then [r.data] else []
  }

  /** The messages written to the infrared device, in order. */
  function SentOut(out: seq<Output>): seq<string> {
    if out == [] then []
    else
      var o := out[|out| - 1];
      SentOut(out[..|out| - 1]) + if o.ToDevice? then [o.data] else []
  }

  /** The index of the first client that talks and is not passed over, or the end. */
  function FirstInTurn(w: World, t: seq<int>, i: nat): (j: nat)
    requires i <= |t|
    ensures i <= j <= |t| && (forall k | i <= k < j :: !InTurn(w, t, k)) && (j < |t| ==> InTurn(w, t, j))
    decreases |t| - i
  {
    if i == |t| || InTurn(w, t, i) then i else FirstInTurn(w, t, i + 1)
  }

  /** One message per pass that has a client in turn: the message of the first one. */
  function Messages(rs: seq<Round>): seq<string> {
    if rs == [] then []
    else
      var init, r := rs[..|rs| - 1], rs[|rs| - 1];
      Messages(init) +
      if !r.Service? then []
      else
        var t := TableRun([], init);
        var j := FirstInTurn(r.w, t, 0);
        if j < |t| then [r.w.read(t[j])] else []
  }

  lemma {:induction false} SentToConcat(s: int, a: seq<Output>, b: seq<Output>)
    ensures SentTo(s, a + b) == SentTo(s, a) + SentTo(s, b)
    decreases |b|
  {
    if b == [] {
      assert a + b == a;
    } else {
      SentToConcat(s, a, b[..|b| - 1]);
      assert (a + b)[..|a + b| - 1] == a + b[..|b| - 1];
    }
  }

  lemma {:induction false} SentOutConcat(a: seq<Output>, b: seq<Output>)
    ensures SentOut(a + b) == SentOut(a) + SentOut(b)
    decreases |b|
  {
    if b == [] {
      assert a + b == a;
    } else {
      SentOutConcat(a, b[..|b| - 1]);
      assert (a + b)[..|a + b| - 1] == a + b[..|b| - 1];
    }
  }

  /** The same data to every socket of a table. */
  predicate IsBroadcast(out: seq<Output>, t: seq<int>, data: string) {
    |out| == |t| && forall i | 0 <= i < |t| :: out[i] == ToClient(t[i], data)
  }

  lemma {:induction false} BroadcastReaches(s: int, out: seq<Output>, t: seq<int>, data: string)
    requires IsBroadcast(out, t, data) && Distinct(t)
    ensures SentTo(s, out) == if s in t then [data] else []
    ensures SentOut(out) == []
    decreases |t|
  {
    if t != [] {
      var n := |t| - 1;
      BroadcastReaches(s, out[..n], t[..n], data);
      assert t == t[..n] + [t[n]];
      assert s == t[n] ==> s !in t[..n];
    }
  }

  /** What one turn sends: samples go to all clients of the table, in its order, and the message
      of the client in turn to the device. */
  lemma TurnSends(t: seq<int>, r: Round)
    ensures r.Infrared? && r.data != "" ==> IsBroadcast(OutputOf(t, r), t, r.data)
    ensures (r.Infrared? && r.data == "") || r.Accept? ==> OutputOf(t, r) == []
    ensures r.Service? ==>
              var j := FirstInTurn(r.w, t, 0);
              OutputOf(t, r) == if j < |t| then [ToDevice(r.w.read(t[j]))] else []
  {
    if r.Service? {
      ServedInTurn(r.w, t, FirstInTurn(r.w, t, 0));
    }
  }

  lemma TurnSendsTo(s: int, t: seq<int>, r: Round)
    requires Distinct(t)
    ensures SentTo(s, OutputOf(t, r)) == if r.Infrared? && r.data != "" && s in t then [r.data] else []
    ensures SentOut(OutputOf(t, r)) ==
            if !r.Service? then []
            else
              var j := FirstInTurn(r.w, t, 0);
              if j < |t| then [r.w.read(t[j])] else []
  {
    hide Distinct, FirstInTurn;
    TurnSends(t, r);
    if r.Infrared? && r.data != "" {
      BroadcastReaches(s, OutputOf(t, r), t, r.data);
    }
  }

  /** Every client gets exactly the samples that arrived while it was connected, each once and
      in order; the device gets exactly the messages of the clients in turn. */
  lemma {:induction false} EveryoneIsServed(rs: seq<Round>, s: int)
    requires FreshAccepts([], rs)
    ensures SentTo(s, OutputRun([], rs)) == HeardBy(s, rs)
    ensures SentOut(OutputRun([], rs)) == Messages(rs)
  {
    hide FreshAccept, OutputOf, Distinct, FirstInTurn, TableOf;
    if rs != [] {
      var init, r := rs[..|rs| - 1], rs[|rs| - 1];
      assert forall i | 0 <= i < |init| :: init[..i] == rs[..i];
      EveryoneIsServed(init, s);
      RunIsEvents(init);
      var t := TableRun([], init);
      SentToConcat(s, OutputRun([], init), OutputOf(t, r));
      SentOutConcat(OutputRun([], init), OutputOf(t, r));
      TurnSendsTo(s, t, r);
    }
  }

  // ---------- clients that were passed over ----------

  function Count(t: seq<int>, s: set<int>): nat {
    if t == [] then 0 else (if t[0] in s then 1 else 0) + Count(t[1..], s)
  }

  /** In this pass nobody talks, and exactly the clients in `gone` have gone. */
  predicate Steady(w: World, t: seq<int>, gone: set<int>) {
    forall i | 0 <= i < |t| :: !Talks(w, t[i]) && (Gone(w, t[i]) <==> t[i] in gone)
  }

  predicate SteadyTurn(t: seq<int>, r: Round, gone: set<int>) {
    match r
    case Infrared(_) => true
    case Accept(_) => Joining(r) != [] ==> Joining(r)[0] !in gone
    case Service(w) => Steady(w, t, gone)
  }

  predicate SteadyRun(t: seq<int>, rs: seq<Round>, gone: set<int>) {
    forall i | 0 <= i < |rs| :: SteadyTurn(TableRun(t, rs[..i]), rs[i], gone)
  }

  function Passes(rs: seq<Round>): nat {
    if rs == [] then 0 else Passes(rs[..|rs| - 1]) + if rs[|rs| - 1].Service? then 1 else 0
  }

  function Accepted(rs: seq<Round>): seq<int> {
    if rs == [] then [] else Accepted(rs[..|rs| - 1]) + Joining(rs[|rs| - 1])
  }

  /** A pass in which nobody talks drops at least half of the clients that have gone, although
      it passes over the ones behind them. */
  lemma {:induction false} PassHalves(w: World, t: seq<int>, gone: set<int>)
    requires Steady(w, t, gone)
    ensures var t' := Walk(w, t).table;
            Without(t', gone) == Without(t, gone) && 2 * Count(t', gone) <= Count(t, gone)
  {
    if t == [] {
    } else if !Gone(w, t[0]) {
      PassHalves(w, t[1..], gone);
      assert Walk(w, t).table[1..] == Walk(w, t[1..]).table;
    } else if |t| == 1 {
      assert t[1..] == [];
    } else {
      PassHalves(w, t[2..], gone);
      assert Walk(w, t).table[1..] == Walk(w, t[2..]).table;
      assert t[1..][1..] == t[2..];
    }
  }

  lemma {:induction false} CountPush(t: seq<int>, x: int, s: set<int>)
    ensures Count(t + [x], s) == Count(t, s) + if x in s then 1 else 0
  {
    if t == [] {
      assert [] + [x] == [x];
    } else {
      CountPush(t[1..], x, s);
      assert (t + [x])[1..] == t[1..] + [x];
    }
  }

  lemma {:induction false} NobodyGone(t: seq<int>, gone: set<int>)
    requires Count(t, gone) == 0
    ensures Without(t, gone) == t
  {
    if t != [] {
      NobodyGone(t[1..], gone);
    }
  }

  lemma SteadyTurnHalves(t: seq<int>, r: Round, gone: set<int>, others: seq<int>)
    requires SteadyTurn(t, r, gone) && Without(t, gone) == Without(others, gone)
    ensures var t' := TableOf(t, r);
            && Without(t', gone) == Without(others + Joining(r), gone)
            && (if r.Service? then 2 else 1) * Count(t', gone) <= Count(t, gone)
  {
    hide Walk, Steady, Without, Count;
    assert t + [] == t && others + [] == others;
    match r {
      case Infrared(_) =>
      case Accept(csock) =>
        CountPush(t, csock, gone);
        WithoutPush(t, csock, gone);
        WithoutPush(others, csock, gone);
      case Service(w) =>
        PassHalves(w, t, gone);
    }
  }

  lemma SteadyRunSplit(t: seq<int>, rs: seq<Round>, gone: set<int>)
    requires SteadyRun(t, rs, gone) && rs != []
    ensures var init, r := rs[..|rs| - 1], rs[|rs| - 1];
            && SteadyRun(t, init, gone) && SteadyTurn(TableRun(t, init), r, gone)
            && Passes(rs) == Passes(init) + (if r.Service? then 1 else 0)
            && t + Accepted(rs) == t + Accepted(init) + Joining(r)
  {
    hide SteadyTurn, TableRun;
    var init := rs[..|rs| - 1];
    assert forall i | 0 <= i < |init| :: init[..i] == rs[..i];
  }

  lemma {:induction false} SteadyRunHalves(t: seq<int>, rs: seq<Round>, gone: set<int>)
    requires SteadyRun(t, rs, gone)
    ensures Without(TableRun(t, rs), gone) == Without(t + Accepted(rs), gone)
    ensures Count(TableRun(t, rs), gone) * Pow2(Passes(rs)) <= Count(t, gone)
  {
    if rs == [] {
      assert t + [] == t;
    } else {
      hide SteadyRun, SteadyTurn, TableOf, Without, Count, Passes, Accepted, Pow2;
      var init, r := rs[..|rs| - 1], rs[|rs| - 1];
      SteadyRunSplit(t, rs, gone);
      SteadyRunHalves(t, init, gone);
      SteadyTurnHalves(TableRun(t, init), r, gone, t + Accepted(init));
      Halved(Count(TableRun(t, init), gone), Count(TableRun(t, rs), gone), Passes(init), Count(t, gone), r.Service?);
    }
  }

  lemma Halved(c: nat, c': nat, k: nat, bound: nat, half: bool)
    requires c * Pow2(k) <= bound && (if half then 2 else 1) * c' <= c
    ensures c' * Pow2(if half then k + 1 else k) <= bound
  {
    var p, d := Pow2(k), if half then 2 * c' else c';
    assert d * p <= c * p;
  }

  /** Clients passed over are not forgotten: turns in which nobody talks, with `n` passes among
      them, clear fewer than 2^n gone clients, and keep all the others and the new ones in order. */
  lemma PassesClear(t: seq<int>, rs: seq<Round>, gone: set<int>)
    requires SteadyRun(t, rs, gone) && Count(t, gone) < Pow2(Passes(rs))
    ensures TableRun(t, rs) == Without(t + Accepted(rs), gone)
  {
    hide SteadyRun, Without, Count, TableRun, Accepted, Passes, Pow2;
    SteadyRunHalves(t, rs, gone);
    var c: int, p: int := Count(TableRun(t, rs), gone), Pow2(Passes(rs));
    assert c == 0 || c * p >= p;
    NobodyGone(TableRun(t, rs), gone);
  }
}
