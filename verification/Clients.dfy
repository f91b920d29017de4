/** The table of connected clients, and the pass that serves it while it shrinks. */
module Clients {
  import opened Wrappers

  const MAX_CLIENTS := 100
  const SOCKET_ERROR := -1

  // ---------- the table as a list ----------

  predicate Distinct(t: seq<int>) {
    forall i, j | 0 <= i < j < |t| :: t[i] != t[j]
  }

  function IndexOf(t: seq<int>, s: int): (i: nat)
    ensures i <= |t| && (forall j | 0 <= j < i :: t[j] != s) && (i < |t| ==> t[i] == s)
  {
    if t == [] || t[0] == s then 0 else 1 + IndexOf(t[1..], s)
  }

  /** `t` after `remove_client(s)`: without `s`, or, if `s` is not there, without the last entry. */
  function Removed(t: seq<int>, s: int): seq<int> {
    var i := IndexOf(t, s);
    if i < |t| then t[..i] + t[i + 1..] else if t == [] then [] else t[..|t| - 1]
  }

  /** Some data from a client that is still there, nothing from one that has gone. */
  datatype World = World(ready: set<int>, read: int -> string)

  predicate Gone(w: World, s: int) {
    s >= 0 && s in w.ready && w.read(s) == ""
  }

  predicate Talks(w: World, s: int) {
    s >= 0 && s in w.ready && w.read(s) != ""
  }

  /** The client table after a pass, and the client whose message was forwarded. */
  datatype Pass = Pass(table: seq<int>, served: Option<int>)

  /** Visiting a list from its head: a client that has gone is dropped, and the one behind it,
      now in its place, is passed over; the first client that talks ends the pass. */
  function Walk(w: World, t: seq<int>): Pass {
    if t == [] then Pass([], None)
    else if Talks(w, t[0]) then Pass(t, Some(t[0]))
    else if !Gone(w, t[0]) then
      var r := Walk(w, t[1..]);
      Pass([t[0]] + r.table, r.served)
    else if |t| == 1 then Pass([], None)
    else
      var r := Walk(w, t[2..]);
      Pass([t[1]] + r.table, r.served)
  }

  // ---------- the code ----------

  class ClientTable {
    const slots: array<int>
    var count: nat

    ghost predicate Valid()
      reads this
    {
      slots.Length == MAX_CLIENTS && count <= MAX_CLIENTS
    }

    function Table(): seq<int>
      requires count <= slots.Length
      reads this, slots
    {
      slots[..count]
    }

    constructor ()
      ensures Valid() && Table() == [] && fresh(slots)
    {
      slots := new int[MAX_CLIENTS](_ => 0);
      count := 0;
    }

    /** `csock` is what `accept` returned. */
    method AddClient(csock: int)
      requires Valid() && (csock == -1 || count < 100)
      modifies this, slots
      ensures Valid()
      ensures Table() == old(Table()) + if csock == -1 then [] else [csock]
    {
      if csock == SOCKET_ERROR {
        return;
      }
      var idx := count;
      count := count + 1;
      slots[idx] := csock;
    }

    method RemoveClient(csock: int)
      requires Valid()
      modifies this, slots
      ensures Valid() && Table() == Removed(old(Table()), csock) && count <= old(count)
    {
      hide Removed;
      ghost var t := Table();
      ghost var k := IndexOf(t, csock);
      var moveup := false;
      for idx := 0 to count
        invariant count == |t| && moveup == (k < idx)
        invariant forall i | idx <= i < |t| :: slots[i] == t[i]
        invariant forall i | 0 <= i < k && i < idx :: slots[i] == t[i]
        invariant forall i | k <= i < idx && i + 1 < |t| :: slots[i] == t[i + 1]
      {
        if slots[idx] == csock {
          moveup := true;
        }
        if moveup && idx + 1 < count {
          slots[idx] := slots[idx + 1];
        }
      }
      if count > 0 {
        count := count - 1;
      }
      ShiftedIs(t, csock, k, Table());
    }

    method Client(idx: nat) returns (s: int)
      requires Valid()
      ensures s == if idx < count then Table()[idx] else -1
    {
      if idx >= count {
        return -1;
      }
      s := slots[idx];
    }

    /** The sockets a buffer is sent to, in order. */
    method WriteToAllClients() returns (sends: seq<int>)
      requires Valid()
      ensures sends == Table()
    {
      sends := [];
      for idx := 0 to count
        invariant sends == Table()[..idx]
      {
        var csock := Client(idx);
        sends := sends + [csock];
      }
    }

    /** One service pass; `forwarded` are the messages written to the infrared device. */
    method Serve(w: World) returns (forwarded: seq<string>)
      requires Valid() && Distinct(Table())
      modifies this, slots
      ensures Valid() && Distinct(Table())
      ensures var r := Walk(w, old(Table()));
              && Table() == r.table
              && forwarded == match r.served case None => [] case Some(s) => [w.read(s)]
    {
      ghost var t := Table();
      forwarded := [];
      var idx := 0;
      PassStarts(w, t);
      while idx < count
        invariant Valid() && Passing(w, t, Table(), idx) && forwarded == []
        decreases count + MAX_CLIENTS - idx
      {
        hide *;
        var data := Visit(w, idx, t);
        if data.Some? {
          forwarded := [data.value];
          return;
        }
        idx := idx + 1;
      }
      PassEnds(w, t, Table(), idx);
    }

    /** One client of a pass: the message to forward, if it has one. */
    method Visit(w: World, idx: nat, ghost t: seq<int>) returns (data: Option<string>)
      requires Valid() && idx < count && Passing(w, t, Table(), idx)
      modifies this, slots
      ensures Valid() && count <= old(count)
      ensures data == None ==> Passing(w, t, Table(), idx + 1)
      ensures data.Some? ==> Distinct(Table()) && exists s :: Walk(w, t) == Pass(Table(), Some(s)) && data.value == w.read(s)
    {
      hide Passing, Walk, Removed, Distinct;
      var csocket := Client(idx);
      VisitNext(w, t, Table(), idx);
      if csocket < 0 || csocket !in w.ready {
        return None;
      }
      var c := w.read(csocket);
      if |c| == 0 {
        RemoveClient(csocket);
        return None;
      }
      return Some(c);
    }
  }

  lemma ShiftedIs(t: seq<int>, s: int, k: nat, r: seq<int>)
    requires k == IndexOf(t, s) && |r| == if t == [] then 0 else |t| - 1
    requires forall i | 0 <= i < |r| && i < k :: r[i] == t[i]
    requires forall i | k <= i < |r| :: r[i] == t[i + 1]
    ensures r == Removed(t, s)
  {
  }

  /** At index `idx` of the table `tab`, a pass that began on `t` has still to do what a
      pass over the rest of `tab` would do. */
  predicate Passing(w: World, t: seq<int>, tab: seq<int>, idx: nat) {
    var i := if idx <= |tab| then idx else |tab|;
    var r := Walk(w, tab[i..]);
    Distinct(tab) && Walk(w, t) == Pass(tab[..i] + r.table, r.served)
  }

  lemma PassStarts(w: World, t: seq<int>)
    requires Distinct(t)
    ensures Passing(w, t, t, 0)
  {
    assert t[0..] == t && t[..0] + Walk(w, t).table == Walk(w, t).table;
  }

  lemma PassEnds(w: World, t: seq<int>, tab: seq<int>, idx: nat)
    requires Passing(w, t, tab, idx) && idx >= |tab|
    ensures Walk(w, t) == Pass(tab, None) && Distinct(tab)
  {
    assert tab[|tab|..] == [] && tab[..|tab|] + [] == tab;
  }

  lemma VisitNext(w: World, t: seq<int>, tab: seq<int>, idx: nat)
    requires Passing(w, t, tab, idx) && idx < |tab|
    ensures Talks(w, tab[idx]) ==> Walk(w, t) == Pass(tab, Some(tab[idx])) && Distinct(tab)
    ensures Gone(w, tab[idx]) ==> Passing(w, t, Removed(tab, tab[idx]), idx + 1)
    ensures !Talks(w, tab[idx]) && !Gone(w, tab[idx]) ==> Passing(w, t, tab, idx + 1)
  {
    var seen, x, rest := tab[..idx], tab[idx], tab[idx..];
    assert tab == seen + rest;
    if Gone(w, x) {
      VisitGone(w, t, tab, idx);
    } else if !Talks(w, x) {
      assert rest[1..] == tab[idx + 1..];
      assert seen + ([x] + Walk(w, rest[1..]).table) == tab[..idx + 1] + Walk(w, rest[1..]).table;
    }
  }

  lemma VisitGone(w: World, t: seq<int>, tab: seq<int>, idx: nat)
    requires Passing(w, t, tab, idx) && idx < |tab| && Gone(w, tab[idx])
    ensures Passing(w, t, Removed(tab, tab[idx]), idx + 1)
  {
    var seen, rest := tab[..idx], tab[idx..];
    RemovedAt(tab, idx);
    var tab' := Removed(tab, tab[idx]);
    hide Removed, Distinct;
    if |rest| > 1 {
      assert tab'[..idx + 1] == seen + [rest[1]] && tab'[idx + 1..] == rest[2..];
      assert seen + ([rest[1]] + Walk(w, rest[2..]).table) == tab'[..idx + 1] + Walk(w, rest[2..]).table;
    } else {
      assert tab' == seen && tab'[|tab'|..] == [] && tab'[..|tab'|] == tab';
    }
  }

  lemma RemovedAt(t: seq<int>, i: nat)
    requires i < |t| && Distinct(t)
    ensures Removed(t, t[i]) == t[..i] + t[i + 1..]
    ensures Distinct(Removed(t, t[i]))
  {
  }
}
