/**
 The WebSocket connection pool: append with growth, swap-remove, the poll
 thread's sweep interleaved with other threads' additions, and shutdown.
 A connection is known by an identity that is never reused.
 */
module WsPool {
  import opened WsSweep

  class Pool {
    var items: array<Conn>
    var count: nat
    /** CLOSE frames sent and `on_close` callbacks run, oldest first. */
    var log: seq<Closing>
    /** The next identity to hand out. */
    var nextId: int

    constructor ()
      ensures Valid() && Live() == [] && log == [] && fresh(items)
    {
      items := new Conn[0];
      count, log, nextId := 0, [], 0;
    }

    ghost function Live(): seq<Conn>
      reads this, items
      requires count <= items.Length
    {
      items[..count]
    }

    /**
     No connection is held twice; nobody gets a second CLOSE frame or a second `on_close`; and whoever
     got one has left the pool.
     */
    ghost predicate Valid()
      reads this, items
    {
      && count <= items.Length
      && Unique(Ids(Live())) && Unique(log)
      && (forall id :: id in Ids(Live()) ==> id < nextId)
      && (forall e :: e in log ==> e.id < nextId && e.id !in Ids(Live()))
    }

    /** `ws_add_connection`: the pool doubles when full, starting from 64. */
    method AddConnection(hasOnClose: bool) returns (slot: nat)
      requires Valid()
      modifies this`items, this`count, this`nextId, items
      ensures Valid() && slot == old(count) && nextId == old(nextId) + 1 && (items == old(items) || fresh(items))
      ensures Live() == old(Live()) + [Conn(old(nextId), true, hasOnClose)]
    {
      ghost var live := Live();
      if count == items.Length {
        var capacity := if items.Length == 0 then 64 else items.Length * 2;
        var grown := new Conn[capacity];
        forall i | 0 <= i < count {
          grown[i] := items[i];
        }
        items := grown;
      }
      assert Live() == live;
      slot := count;
      items[slot] := Conn(nextId, true, hasOnClose);
      nextId := nextId + 1;
      count := count + 1;
      assert Live() == live + [Conn(old(nextId), true, hasOnClose)];
      SnocValid(live, Conn(old(nextId), true, hasOnClose), log, old(nextId));
    }

    /** `ws_connection_close` on the connection at `index`. */
    method CloseConnection(index: nat)
      requires count <= items.Length && index < count
      modifies this`log, items
      ensures Live() == old(Live())[index := items[index]] && items[index] == old(items[index]).(connected := false)
      ensures log == old(log) + ClosingOf(old(items[index]))
      ensures var c := old(items[index]);
              && (!c.connected ==> log == old(log))
              && (c.connected && c.hasOnClose ==> log == old(log) + [CloseFrame(c.id), OnClose(c.id)])
              && (c.connected && !c.hasOnClose ==> log == old(log) + [CloseFrame(c.id)])
    {
      if !items[index].connected { return; }
      log := log + [CloseFrame(items[index].id)];
      items[index] := items[index].(connected := false);
      if items[index].hasOnClose {
        log := log + [OnClose(items[index].id)];
      }
    }

    /** `ws_remove_connection`. */
    method RemoveConnection(index: nat)
      requires Valid() && index < count
      modifies this`count, this`log, items
      ensures Valid() && Live() == SwapRemove(old(Live()), index)
      ensures log == old(log) + ClosingOf(old(items[index]))
    {
      ghost var live, c := Live(), items[index];
      CloseConnection(index);
      items[index] := items[count - 1];
      count := count - 1;
      assert Live() == SwapRemove(live, index);
      LeftValid(live, index, old(log), nextId);
    }

    /** Additions made by other threads while the sweep has let go of the lock. */
    method AddAll(added: seq<bool>)
      requires Valid()
      modifies this`items, this`count, this`nextId, items
      ensures Valid() && nextId == old(nextId) + |added| && (items == old(items) || fresh(items))
      ensures old(Live()) <= Live() && Ids(Live()) == Ids(old(Live())) + Range(old(nextId), |added|)
      ensures AllConnected(Live()[|old(Live())|..])
    {
      var k := 0;
      ghost var live := Live();
      assert Ids(live) + Range(old(nextId), 0) == Ids(live);
      while k < |added|
        invariant k <= |added| && Valid() && nextId == old(nextId) + k && (items == old(items) || fresh(items))
        invariant live <= Live() && Ids(Live()) == Ids(live) + Range(old(nextId), k)
        invariant AllConnected(Live()[|live|..])
      {
        ghost var before := Live();
        var slot := AddConnection(added[k]);
        assert Ids(Live()) == Ids(before) + [old(nextId) + k];
        assert Live()[|live|..] == before[|live|..] + [Live()[|before|]];
        k := k + 1;
      }
    }

    /** The unlocked part of one turn: the connection reads, others are added behind everyone present. */
    method Process(i: nat, turn: Turn)
      requires Valid() && i < count && items[i].connected
      modifies this`items, this`count, this`nextId, items
      ensures Valid() && count >= old(count) && (items == old(items) || fresh(items))
      ensures Live()[..old(count)] == old(Live())[i := old(items[i]).(connected := !turn.readable || turn.alive)]
      ensures AllConnected(Live()[old(count)..])
      ensures var added := if turn.readable then |turn.added| else 0;
              nextId == old(nextId) + added && Ids(Live()) == Ids(old(Live())) + Range(old(nextId), added)
    {
      ghost var live := Live();
      if !turn.readable {
        assert live[i := live[i].(connected := true)] == live && Ids(live) + Range(nextId, 0) == Ids(live);
        return;
      }
      items[i] := items[i].(connected := turn.alive);
      ghost var live' := Live();
      assert live' == live[i := items[i]] && Ids(live') == Ids(live);
      AddAll(turn.added);
      assert Live()[..|live'|] == live';
    }

    lemma CountFits()
      requires Valid()
      ensures count <= items.Length
    {
    }

    lemma LiveSize()
      requires count <= items.Length
      ensures |Live()| == count && forall i :: 0 <= i < count ==> Live()[i] == items[i]
    {
    }

    lemma ValidFacts()
      requires Valid()
      ensures Unique(Ids(Live())) && forall id :: id in Ids(Live()) ==> id < nextId
    {
    }

    /** One turn of the sweep at index `i`; the connection there is kept or removed. */
    method Examine(i: nat, turn: Turn) returns (kept: bool)
      requires Valid() && i < count <= items.Length
      modifies this`items, this`count, this`nextId, this`log, items
      ensures Valid() && count <= items.Length && log == old(log) && nextId >= old(nextId)
      ensures items == old(items) || fresh(items)
      ensures multiset(Ids(Live())) + (if kept then multiset{} else multiset{old(items[i].id)})
           == multiset(Ids(old(Live()))) + multiset(Range(old(nextId), nextId - old(nextId)))
      ensures kept == (old(items[i].connected) && (!turn.readable || turn.alive))
      ensures Carried(Live(), old(Live()), i, kept, old(nextId), nextId)
      ensures !turn.readable ==> count == old(count) - (if kept then 0 else 1)
    {
      hide *;
      ghost var live, d := Live(), nextId;
      LiveSize();
      EmptyRange(d);
      if !items[i].connected {
        AsBefore(live, i, d);
        NoClosing(items[i]);
        RemoveConnection(i);
        LiveSize();
        DropTurn(live, i);
        DropCarried(live, live, i, d, d);
        return false;
      }
      Process(i, turn);
      LiveSize();
      ghost var mid := Live();
      Newcomers(mid, live, i, !turn.readable || turn.alive, d, nextId - d);
      IdsJoin(mid, live, d, nextId - d);
      if !items[i].connected {
        NoClosing(items[i]);
        RemoveConnection(i);
        LiveSize();
        DropTurn(mid, i);
        DropCarried(mid, live, i, d, nextId);
        return false;
      }
      assert live[i].(connected := true) == live[i];
      KeepCarried(mid, live, i, d, nextId);
      return true;
    }

    /**
     The locked sweep of `ws_poll_loop`. `turns` says what happens at each connection examined; once
     they run out nothing is readable. `trail` is whom the sweep examined, in order: everyone present
     at the start or added meanwhile, each exactly once. The one examined at turn `k` is still in the
     pool exactly when it was up and its turn left it up. Whoever is in the pool is connected and
     otherwise unchanged.
     */
    method Sweep(turns: seq<Turn>) returns (ghost trail: seq<int>)
      requires Valid() && count <= items.Length
      modifies this`items, this`count, this`nextId, this`log, items
      ensures Valid() && count <= items.Length && log == old(log) && nextId >= old(nextId)
      ensures Unique(trail)
      ensures multiset(trail) == multiset(Ids(old(Live()))) + multiset(Range(old(nextId), nextId - old(nextId)))
      ensures forall k :: 0 <= k < |trail| ==>
                (trail[k] in Ids(Live()) <==> WasUp(trail[k], old(Live()), old(nextId)) && Stays(turns, k))
      ensures forall id :: id in Ids(Live()) ==> id in trail
      ensures AllConnected(Live()) && AllSame(Live(), old(Live()), old(nextId), nextId)
    {
      hide *;
      var i, t := 0, 0;
      trail := [];
      ghost var live, d, removed: multiset<int> := Live(), nextId, multiset{};
      ValidFacts();
      LiveSize();
      ProgressStart(turns, live, d);
      while i < count
        invariant Valid() && i <= count <= items.Length && log == old(log) && nextId >= d
        invariant t == if |trail| < |turns| then |trail| else |turns|
        invariant items == old(items) || fresh(items)
        invariant Progress(turns, live, d, trail, Live(), i, removed, nextId)
        decreases |turns| - t, count - i
      {
        ghost var before, n := Live(), nextId;
        var turn := if t < |turns| then turns[t] else Turn(false, true, []);
        t := if t < |turns| then t + 1 else t;
        StaysIs(turns, |trail|, turn);
        LiveSize();
        ghost var id := items[i].id;
        var kept := Examine(i, turn);
        ghost var gone := if kept then multiset{} else multiset{id};
        ProgressTurn(turns, live, d, trail, before, i, removed, n, kept, Live(), nextId, gone);
        trail, removed := trail + [id], removed + gone;
        CarriedFacts(Live(), before, i, kept, n, nextId);
        LiveSize();
        if kept { i := i + 1; }
      }
      LiveSize();
      SweepEnds(trail, turns, live, d, nextId, Live(), removed);
    }

    /**
     `cHTTPX_WSocketShutdown`: everyone left is taken out, and closed if still connected. The others
     get neither a CLOSE frame nor a callback.
     */
    method Shutdown()
      requires Valid()
      modifies this`count, this`log, items
      ensures Valid() && count == 0
      ensures log == old(log) + Closings(RemovalOrder(old(Live())))
    {
      hide *;
      CountFits();
      ghost var order := RemovalOrder(Live());
      LiveSize();
      while count > 0
        invariant Valid() && count <= items.Length
        invariant log + Closings(RemovalOrder(Live())) == old(log) + Closings(order)
        decreases count
      {
        LiveSize();
        OrderStep(Live(), log);
        RemoveConnection(0);
        CountFits();
        LiveSize();
      }
      LiveSize();
      NothingLeft(Live(), log);
    }
  }
}
