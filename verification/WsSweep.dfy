/**
 Values and facts behind the connection pool: connections and their identities, swap-remove, what a
 shutdown sends, and what one sweep does to the members, whoever joins meanwhile.
 */
module WsSweep {

  datatype Conn = Conn(id: int, connected: bool, hasOnClose: bool)

  /** What `ws_connection_close` does to the outside. */
  datatype Closing = CloseFrame(id: int) | OnClose(id: int)

  /**
   What happens at one turn of the sweep: whether `select` reported the connection readable, and if
   so whether it is still connected after its reads and which connections were added meanwhile.
   */
  datatype Turn = Turn(readable: bool, alive: bool, added: seq<bool>)

  function Ids(s: seq<Conn>): (r: seq<int>)
    ensures |r| == |s|
  {
    seq(|s|, i requires 0 <= i < |s| => s[i].id)
  }

  predicate Unique<T(==)>(s: seq<T>) { forall i, j :: 0 <= i < j < |s| ==> s[i] != s[j] }

  /** `items[index] = items[count - 1]; count--`. */
  function SwapRemove(s: seq<Conn>, index: nat): (r: seq<Conn>)
    requires index < |s|
    ensures |r| == |s| - 1
  {
    s[index := s[|s| - 1]][..|s| - 1]
  }

  /** Swap-remove takes out exactly the connection at `index`. */
  lemma SwapRemoveIds(s: seq<Conn>, index: nat)
    requires index < |s|
    ensures multiset(Ids(SwapRemove(s, index))) + multiset{s[index].id} == multiset(Ids(s))
  {
    var a, last := Ids(s), s[|s| - 1].id;
    var r := Ids(SwapRemove(s, index));
    assert a == a[..|a| - 1] + [last];
    if index == |s| - 1 {
      assert r == a[..|a| - 1];
    } else {
      assert r == a[..index] + [last] + a[index + 1..|a| - 1];
      assert a == a[..index] + [a[index]] + a[index + 1..|a| - 1] + [last];
    }
  }

  lemma UniqueIffMultiset(s: seq<int>)
    ensures Unique(s) <==> forall x :: multiset(s)[x] <= 1
  {
    if Unique(s) {
      forall x ensures multiset(s)[x] <= 1 { UniqueCount(s, x); }
    }
    if forall x :: multiset(s)[x] <= 1 {
      forall i, j | 0 <= i < j < |s| ensures s[i] != s[j] {
        assert s == s[..i] + [s[i]] + s[i + 1..j] + [s[j]] + s[j + 1..];
        assert multiset(s)[s[i]] <= 1;
      }
    }
  }

  lemma {:induction false} UniqueCount(s: seq<int>, x: int)
    requires Unique(s)
    ensures multiset(s)[x] <= 1
  {
    if s != [] {
      UniqueCount(s[1..], x);
      assert s == [s[0]] + s[1..];
      if s[0] == x { assert x !in s[1..]; }
    }
  }

  // ------------------------------------------------ identities and updates

  predicate AllConnected(s: seq<Conn>) { forall i :: 0 <= i < |s| ==> s[i].connected }

  function Range(from: int, n: nat): (r: seq<int>)
    ensures |r| == n && forall i :: 0 <= i < n ==> r[i] == from + i
  {
    seq(n, i => from + i)
  }

  lemma RangeSplit(from: int, a: nat, b: nat)
    ensures multiset(Range(from, a + b)) == multiset(Range(from, a)) + multiset(Range(from + a, b))
  {
    assert Range(from, a + b) == Range(from, a) + Range(from + a, b);
  }

  lemma RangeJoin(from: int, mid: int, end: int)
    requires from <= mid <= end
    ensures multiset(Range(from, end - from)) == multiset(Range(from, mid - from)) + multiset(Range(mid, end - mid))
  {
    RangeSplit(from, mid - from, end - mid);
  }

  lemma EmptyRange(from: int)
    ensures multiset(Range(from, 0)) == multiset{} && multiset(Ids([])) == multiset{}
  {
  }

  lemma Balance(live: multiset<int>, removed: multiset<int>, total: multiset<int>, x: multiset<int>,
                after: multiset<int>, gone: multiset<int>, y: multiset<int>)
    requires live + removed == total + x && after + gone == live + y
    ensures after + (removed + gone) == total + (x + y)
  {
    forall e ensures (after + (removed + gone))[e] == (total + (x + y))[e] {
      assert (live + removed)[e] == (total + x)[e] && (after + gone)[e] == (live + y)[e];
    }
  }

  lemma PrefixGrows(live: seq<Conn>, i: nat)
    requires i < |live|
    ensures live[..i + 1] == live[..i] + [live[i]]
    ensures multiset(Ids(live[..i + 1])) == multiset(Ids(live[..i])) + multiset{live[i].id}
    ensures AllConnected(live[..i]) && live[i].connected ==> AllConnected(live[..i + 1])
  {
    assert live[..i + 1] == live[..i] + [live[i]];
    assert Ids(live[..i + 1]) == Ids(live[..i]) + [live[i].id];
  }

  /** Removing at `i` takes out `live[i]` and disturbs nothing before it. */
  lemma DropTurn(live: seq<Conn>, i: nat)
    requires i < |live|
    ensures SwapRemove(live, i)[..i] == live[..i]
    ensures multiset(Ids(SwapRemove(live, i))) + multiset{live[i].id} == multiset(Ids(live))
  {
    SwapRemoveIds(live, i);
  }

  lemma SnocValid(live: seq<Conn>, c: Conn, log: seq<Closing>, nextId: int)
    requires Unique(Ids(live)) && c.id == nextId && forall id :: id in Ids(live) ==> id < nextId
    requires forall e :: e in log ==> e.id < nextId && e.id !in Ids(live)
    ensures Unique(Ids(live + [c])) && forall id :: id in Ids(live + [c]) ==> id < nextId + 1
    ensures forall e :: e in log ==> e.id !in Ids(live + [c])
  {
    assert Ids(live + [c]) == Ids(live) + [c.id];
    assert c.id !in Ids(live);
  }

  /** What closing `c` sends: nothing if it was already disconnected. */
  function ClosingOf(c: Conn): seq<Closing> {
    if !c.connected then [] else if c.hasOnClose then [CloseFrame(c.id), OnClose(c.id)] else [CloseFrame(c.id)]
  }

  /** The members in the order in which removing index 0 over and over takes them. */
  function RemovalOrder(s: seq<Conn>): seq<Conn>
    decreases |s|
  {
    if s == [] then [] else [s[0]] + RemovalOrder(SwapRemove(s, 0))
  }

  lemma SwapRemovePermutes(s: seq<Conn>)
    requires s != []
    ensures multiset(SwapRemove(s, 0)) + multiset{s[0]} == multiset(s)
  {
    var r, last := SwapRemove(s, 0), s[|s| - 1];
    if |s| == 1 {
      assert s == [s[0]];
    } else {
      var middle := s[1..|s| - 1];
      assert r == [last] + middle;
      assert s == [s[0]] + middle + [last];
    }
  }

  /** That order takes everyone once. */
  lemma {:induction false} RemovalOrderPermutes(s: seq<Conn>)
    ensures multiset(RemovalOrder(s)) == multiset(s)
    decreases |s|
  {
    hide SwapRemove;
    if s != [] {
      SwapRemovePermutes(s);
      RemovalOrderPermutes(SwapRemove(s, 0));
    }
  }

  function Closings(s: seq<Conn>): seq<Closing> {
    if s == [] then [] else ClosingOf(s[0]) + Closings(s[1..])
  }

  lemma OrderStep(s: seq<Conn>, log: seq<Closing>)
    requires s != []
    ensures log + Closings(RemovalOrder(s)) == log + ClosingOf(s[0]) + Closings(RemovalOrder(SwapRemove(s, 0)))
  {
    hide ClosingOf;
    var rest := RemovalOrder(SwapRemove(s, 0));
    assert ([s[0]] + rest)[1..] == rest;
    assert log + (ClosingOf(s[0]) + Closings(rest)) == log + ClosingOf(s[0]) + Closings(rest);
  }

  lemma NothingLeft(s: seq<Conn>, log: seq<Closing>)
    requires s == []
    ensures log + Closings(RemovalOrder(s)) == log
  {
  }

  /** Who hears of a shutdown: exactly those still connected. */
  lemma {:induction false} ClosingsExactly(s: seq<Conn>, e: Closing)
    ensures e in Closings(s) <==> exists c :: c in s && c.connected && e.id == c.id && (e.OnClose? ==> c.hasOnClose)
  {
    if s != [] {
      ClosingsExactly(s[1..], e);
      assert s == [s[0]] + s[1..];
    }
  }

  lemma NoClosing(c: Conn)
    ensures !c.connected ==> ClosingOf(c) == []
  {
  }

  lemma LeftValid(live: seq<Conn>, index: nat, log: seq<Closing>, nextId: int)
    requires index < |live| && Unique(Ids(live)) && Unique(log)
    requires forall id :: id in Ids(live) ==> id < nextId
    requires forall e :: e in log ==> e.id < nextId && e.id !in Ids(live)
    ensures var after, log' := SwapRemove(live, index), log + ClosingOf(live[index]);
            && Unique(Ids(after)) && Unique(log') && (forall id :: id in Ids(after) ==> id < nextId)
            && (forall e :: e in log' ==> e.id < nextId && e.id !in Ids(after))
  {
    var c, after := live[index], SwapRemove(live, index);
    var a, r := Ids(live), Ids(after);
    SwapRemoveIds(live, index);
    UniqueIffMultiset(a);
    UniqueIffMultiset(r);
    assert forall x :: multiset(r)[x] <= multiset(a)[x];
    assert a[index] == c.id && c.id in a;
    assert multiset(a)[c.id] == 1 && multiset(r)[c.id] == 0;
    assert c.id !in r;
    forall id | id in r ensures id in a { assert id in multiset(r); assert id in multiset(a); }
    assert forall e :: e in log ==> e.id != c.id;
  }

  // ------------------------------------------------------- the sweep's meaning

  /** Whether `id` was up when the sweep met `live`, or joined later. */
  ghost predicate WasUp(id: int, live: seq<Conn>, firstNew: int) {
    id >= firstNew || exists j :: 0 <= j < |live| && live[j].id == id && live[j].connected
  }

  /** Whether a connected member survives turn `k` of the sweep. */
  predicate Stays(turns: seq<Turn>, k: nat) {
    k >= |turns| || !turns[k].readable || turns[k].alive
  }

  /** `c` is unchanged since the sweep met `live`, or joined later. */
  predicate Same(c: Conn, live: seq<Conn>, firstNew: int, firstFree: int) {
    c in live || (c.connected && firstNew <= c.id < firstFree)
  }

  predicate AllSame(s: seq<Conn>, live: seq<Conn>, firstNew: int, firstFree: int) {
    forall j :: 0 <= j < |s| ==> Same(s[j], live, firstNew, firstFree)
  }

  lemma OnePlace(s: seq<int>, j: nat, k: nat)
    requires Unique(s) && j < |s| && k < |s| && s[j] == s[k]
    ensures j == k
  {
  }

  lemma UpIs(c: Conn, live: seq<Conn>, firstNew: int, firstFree: int)
    requires Same(c, live, firstNew, firstFree) && Unique(Ids(live)) && forall id :: id in Ids(live) ==> id < firstNew
    ensures WasUp(c.id, live, firstNew) <==> c.connected
  {
    if c in live {
      var j :| 0 <= j < |live| && live[j] == c;
      assert Ids(live)[j] == c.id && c.id in Ids(live);
      assert WasUp(c.id, live, firstNew) <==> exists k :: 0 <= k < |live| && live[k].id == c.id && live[k].connected;
      forall k | 0 <= k < |live| && live[k].id == c.id ensures k == j { OnePlace(Ids(live), j, k); }
    }
  }

  /** After the unlocked part, everyone behind the index is as before or new. */
  lemma Newcomers(mid: seq<Conn>, live: seq<Conn>, i: nat, up: bool, firstNew: int, n: nat)
    requires i < |live| <= |mid| && mid[..|live|] == live[i := live[i].(connected := up)]
    requires AllConnected(mid[|live|..]) && Ids(mid) == Ids(live) + Range(firstNew, n)
    ensures mid[..i] == live[..i] && mid[i] == live[i].(connected := up)
    ensures forall j :: i < j < |mid| ==> Same(mid[j], live[i..], firstNew, firstNew + n)
  {
    assert mid[i] == mid[..|live|][i];
    forall j | 0 <= j < i ensures mid[j] == live[j] { assert mid[j] == mid[..|live|][j]; }
    forall j | i < j < |mid| ensures Same(mid[j], live[i..], firstNew, firstNew + n) {
      if j < |live| {
        assert mid[j] == mid[..|live|][j] == live[i..][j - i];
      } else {
        assert mid[j] == mid[|live|..][j - |live|];
        assert Ids(mid)[j] == Range(firstNew, n)[j - |live|];
      }
    }
  }

  lemma AsBefore(live: seq<Conn>, i: nat, firstNew: int)
    requires i < |live|
    ensures forall j :: i < j < |live| ==> Same(live[j], live[i..], firstNew, firstNew)
  {
    forall j | i < j < |live| ensures live[j] in live[i..] { assert live[j] == live[i..][j - i]; }
  }

  lemma IdsJoin(mid: seq<Conn>, live: seq<Conn>, firstNew: int, n: nat)
    requires Ids(mid) == Ids(live) + Range(firstNew, n)
    ensures multiset(Ids(mid)) == multiset(Ids(live)) + multiset(Range(firstNew, n))
  {
  }

  lemma AllSameStart(live: seq<Conn>, firstNew: int)
    ensures AllSame(live, live, firstNew, firstNew)
  {
  }

  /** What one turn leaves of the members from index `i` on. */
  predicate Carried(after: seq<Conn>, before: seq<Conn>, i: nat, kept: bool, firstNew: int, firstFree: int)
    requires i <= |before|
  {
    && i <= |after| && after[..i] == before[..i]
    && (kept ==> i < |after| && i < |before| && after[i] == before[i])
    && AllSame(after[i..], before[i..], firstNew, firstFree)
  }

  lemma AllSameTurn(after: seq<Conn>, before: seq<Conn>, i: nat, kept: bool, live: seq<Conn>, firstNew: int, mid: int,
      firstFree: int)
    requires i <= |before| && Carried(after, before, i, kept, mid, firstFree)
    requires AllSame(before, live, firstNew, mid) && firstNew <= mid <= firstFree
    ensures AllSame(after, live, firstNew, firstFree)
  {
    forall j | 0 <= j < |after| ensures Same(after[j], live, firstNew, firstFree) {
      if j < i {
        assert after[..i][j] == before[j];
      } else {
        assert Same(after[i..][j - i], before[i..], mid, firstFree);
        if after[j] in before[i..] {
          var k :| 0 <= k < |before[i..]| && before[i..][k] == after[j];
          assert before[i + k] == after[j];
        }
      }
    }
  }

  lemma OneUp(before: seq<Conn>, i: nat, live: seq<Conn>, firstNew: int, firstFree: int)
    requires i < |before| && AllSame(before, live, firstNew, firstFree)
    requires Unique(Ids(live)) && forall id :: id in Ids(live) ==> id < firstNew
    ensures WasUp(before[i].id, live, firstNew) <==> before[i].connected
  {
    hide Unique, Ids, WasUp;
    UpIs(before[i], live, firstNew, firstFree);
  }

  lemma StaysIs(turns: seq<Turn>, k: nat, turn: Turn)
    requires turn == if k < |turns| then turns[k] else Turn(false, true, [])
    ensures Stays(turns, k) <==> !turn.readable || turn.alive
  {
  }

  lemma DropCarried(mid: seq<Conn>, live: seq<Conn>, i: nat, firstNew: int, firstFree: int)
    requires i < |live| <= |mid| && mid[..i] == live[..i]
    requires forall j :: i < j < |mid| ==> Same(mid[j], live[i..], firstNew, firstFree)
    ensures Carried(SwapRemove(mid, i), live, i, false, firstNew, firstFree)
  {
    hide Same;
    var after := SwapRemove(mid, i);
    assert after[..i] == mid[..i];
    forall j | 0 <= j < |after[i..]| ensures Same(after[i..][j], live[i..], firstNew, firstFree) {
      assert after[i..][j] == if j == 0 then mid[|mid| - 1] else mid[i + j];
    }
  }

  lemma KeepCarried(mid: seq<Conn>, live: seq<Conn>, i: nat, firstNew: int, firstFree: int)
    requires i < |live| <= |mid| && mid[..i] == live[..i] && mid[i] == live[i]
    requires forall j :: i < j < |mid| ==> Same(mid[j], live[i..], firstNew, firstFree)
    ensures Carried(mid, live, i, true, firstNew, firstFree)
  {
    forall j | 0 <= j < |mid[i..]| ensures Same(mid[i..][j], live[i..], firstNew, firstFree) {
      if j == 0 { assert live[i..][0] == mid[i]; } else { assert mid[i..][j] == mid[i + j]; }
    }
  }

  /** What the loop of the sweep knows of each one examined. */
  ghost predicate Judged(trail: seq<int>, turns: seq<Turn>, live: seq<Conn>, firstNew: int, done: seq<Conn>,
      removed: multiset<int>) {
    forall k :: 0 <= k < |trail| ==>
      if WasUp(trail[k], live, firstNew) && Stays(turns, k) then trail[k] in Ids(done) else removed[trail[k]] > 0
  }

  lemma CarriedFacts(after: seq<Conn>, before: seq<Conn>, i: nat, kept: bool, firstNew: int, firstFree: int)
    requires i <= |before| && Carried(after, before, i, kept, firstNew, firstFree)
    ensures i <= |after| && after[..i] == before[..i] && (kept ==> i < |after| && i < |before| && after[i] == before[i])
  {
  }

  lemma JudgedTurn(trail: seq<int>, turns: seq<Turn>, live: seq<Conn>, firstNew: int, before: seq<Conn>, i: nat,
      kept: bool,
                   after: seq<Conn>, removed: multiset<int>, mid: int, firstFree: int)
    requires i < |before| && Carried(after, before, i, kept, mid, firstFree)
    requires Judged(trail, turns, live, firstNew, before[..i], removed)
    requires kept == (WasUp(before[i].id, live, firstNew) && Stays(turns, |trail|))
    ensures Judged(trail + [before[i].id], turns, live, firstNew, if kept then after[..i + 1] else after[..i],
                   removed + if kept then multiset{} else multiset{before[i].id})
  {
    hide WasUp, Stays, AllSame;
    var id := before[i].id;
    if kept { assert Ids(after[..i + 1]) == Ids(before[..i]) + [id]; }
  }

  /** The sweep's loop invariant at index `i`: `trail` were examined, `removed` of them taken out, `now` is the pool. */
  ghost predicate Progress(turns: seq<Turn>, live: seq<Conn>, firstNew: int, trail: seq<int>, now: seq<Conn>, i: nat,
                           removed: multiset<int>, firstFree: int) {
    && i <= |now| && firstNew <= firstFree
    && AllConnected(now[..i]) && AllSame(now, live, firstNew, firstFree)
    && multiset(Ids(now)) + removed == multiset(Ids(live)) + multiset(Range(firstNew, firstFree - firstNew))
    && multiset(trail) == multiset(Ids(now[..i])) + removed
    && Judged(trail, turns, live, firstNew, now[..i], removed)
  }

  lemma ProgressStart(turns: seq<Turn>, live: seq<Conn>, firstNew: int)
    ensures Progress(turns, live, firstNew, [], live, 0, multiset{}, firstNew)
  {
    EmptyRange(firstNew);
    assert live[..0] == [];
    AllSameStart(live, firstNew);
  }

  lemma ProgressTurn(turns: seq<Turn>, live: seq<Conn>, firstNew: int, trail: seq<int>, before: seq<Conn>, i: nat,
                     removed: multiset<int>, mid: int, kept: bool, after: seq<Conn>, firstFree: int,
                       gone: multiset<int>)
    requires Unique(Ids(live)) && forall id :: id in Ids(live) ==> id < firstNew
    requires Progress(turns, live, firstNew, trail, before, i, removed, mid) && i < |before| && mid <= firstFree
    requires Carried(after, before, i, kept, mid, firstFree)
    requires kept == (before[i].connected && Stays(turns, |trail|))
    requires gone == if kept then multiset{} else multiset{before[i].id}
    requires multiset(Ids(after)) + gone == multiset(Ids(before)) + multiset(Range(mid, firstFree - mid))
    ensures Progress(turns, live, firstNew, trail + [before[i].id], after, if kept then i + 1
            else i, removed + gone, firstFree)
  {
    hide Unique, Ids, Range, AllSame, WasUp, Stays, Carried, Judged;
    OneUp(before, i, live, firstNew, mid);
    CarriedFacts(after, before, i, kept, mid, firstFree);
    RangeJoin(firstNew, mid, firstFree);
    Balance(multiset(Ids(before)), removed, multiset(Ids(live)), multiset(Range(firstNew, mid - firstNew)),
      multiset(Ids(after)),
            gone, multiset(Range(mid, firstFree - mid)));
    AllSameTurn(after, before, i, kept, live, firstNew, mid, firstFree);
    JudgedTurn(trail, turns, live, firstNew, before, i, kept, after, removed, mid, firstFree);
    if kept { PrefixGrows(after, i); }
  }

  lemma SweepEnds(trail: seq<int>, turns: seq<Turn>, live: seq<Conn>, firstNew: int, firstFree: int, left: seq<Conn>,
      removed: multiset<int>)
    requires Unique(Ids(live)) && forall id :: id in Ids(live) ==> id < firstNew
    requires Progress(turns, live, firstNew, trail, left, |left|, removed, firstFree)
    ensures multiset(trail) == multiset(Ids(live)) + multiset(Range(firstNew, firstFree - firstNew))
    ensures AllConnected(left) && AllSame(left, live, firstNew, firstFree)
    ensures Unique(trail) && forall id :: id in Ids(left) ==> id in trail
    ensures forall k :: 0 <= k < |trail| ==>
              (trail[k] in Ids(left) <==> WasUp(trail[k], live, firstNew) && Stays(turns, k))
  {
    hide WasUp, Stays, Unique, Ids, AllSame;
    assert left[..|left|] == left;
    NobodyTwice(Ids(live), firstNew, firstFree - firstNew, trail, multiset(Ids(left)), removed);
    forall id | id in Ids(left) ensures id in trail {
      assert multiset(Ids(left))[id] > 0;
      assert multiset(trail)[id] > 0;
    }
  }

  /** Identities that were each handed out once stay apart. */
  lemma NobodyTwice(live: seq<int>, firstNew: int, n: nat, trail: seq<int>, rest: multiset<int>, removed: multiset<int>)
    requires Unique(live) && forall id :: id in live ==> id < firstNew
    requires multiset(trail) == rest + removed && rest + removed == multiset(live) + multiset(Range(firstNew, n))
    ensures Unique(trail) && forall x :: removed[x] > 0 ==> rest[x] == 0
  {
    var all := live + Range(firstNew, n);
    forall i, j | 0 <= i < j < |all| ensures all[i] != all[j] {
      if i < |live| <= j { assert live[i] in live; }
    }
    UniqueIffMultiset(all);
    UniqueIffMultiset(trail);
    assert multiset(all) == multiset(trail);
    forall x ensures removed[x] > 0 ==> rest[x] == 0 { assert (rest + removed)[x] == multiset(all)[x] <= 1; }
  }
}
