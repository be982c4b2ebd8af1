/**
 The matcher as the cursor loop it is, writing into the request's parameter array, and the
 three users of it: HTTP dispatch, the growing table of WebSocket routes and the parameter
 look-up of a handler.
 */
module Dispatch {
  import opened Bytes
  import opened Routes

  datatype Route = Route(verb: Bytes, path: Bytes, handler: int)

  datatype WsRoute = WsRoute(path: Bytes, callbacks: int)

  /** `strchr` on the rest of a C string. */
  method IndexOf(s: Bytes, from: nat, c: byte) returns (k: nat)
    requires from <= |s|
    ensures k == from + Find(s[from..], c)
  {
    k := from;
    while k < |s| && s[k] != c
      invariant from <= k <= |s| && c !in s[from..k]
    {
      k := k + 1;
    }
    assert s[from..][..k - from] == s[from..k];
    FindIs(s[from..], c, k - from);
  }

  /** One literal step of the matcher. */
  lemma LiteralStep(t: Bytes, p: Bytes, i: nat, j: nat, room: nat)
    requires i < |t| && j < |p| && t[i] != OPEN
    ensures Match(t[i..], p[j..], room) == if t[i] == p[j] then Match(t[i + 1..], p[j + 1..], room) else None
  {
    assert t[i..][1..] == t[i + 1..] && p[j..][1..] == p[j + 1..];
  }

  /** One placeholder step, from cursor `i` to the brace at `end` and from `j` to `slash`. */
  lemma HoleStep(t: Bytes, p: Bytes, i: nat, j: nat, end: nat, slash: nat, room: nat)
    requires i < |t| && j < |p| && t[i] == OPEN
    requires end == i + Find(t[i..], CLOSE) && slash == j + Find(p[j..], SLASH)
    ensures j <= slash <= |p| && i <= end <= |t|
    ensures end == |t| || room == 0 ==> Match(t[i..], p[j..], room) == None
    ensures end < |t| && room > 0 ==>
      var v := Clamp(p[j..slash], MAX_PARAM_VALUE);
      && i + 1 <= end && j + |v| <= |p|
      && Match(t[i..], p[j..], room)
         == Prepend([Param(Clamp(t[i + 1..end], MAX_PARAM_NAME), v)], Match(t[end + 1..], p[j + |v|..], room - 1))
  {
    hide Find;
    assert p[j..][..slash - j] == p[j..slash];
    if end < |t| && room > 0 {
      var v := Segment(p[j..]);
      assert t[i..][end - i] == CLOSE;
      assert t[i..][1..end - i] == t[i + 1..end];
      assert t[i..][end - i + 1..] == t[end + 1..];
      assert p[j..][|v|..] == p[j + |v|..];
    }
  }

  lemma PrependTwice(a: seq<Param>, b: seq<Param>, rest: Option<seq<Param>>)
    ensures Prepend(a, Prepend(b, rest)) == Prepend(a + b, rest)
  {
    if rest.Some? { assert a + (b + rest.value) == a + b + rest.value; }
  }

  /**
   `cHTTPX_MatchPath`. On a match the leading parameters are exactly the captures and the
   rest of the array is untouched; on a failure the count is untouched, while parameters
   may have been overwritten. Ends because the template cursor always advances, even where
   an empty value leaves the path cursor standing.
   */
  method MatchPath(t: Bytes, p: Bytes, params: array<Param>, before: nat) returns (ok: bool, count: nat)
    requires params.Length == MAX_PARAMS
    modifies params
    ensures ok <==> Match(t, p, MAX_PARAMS).Some?
    ensures ok ==>
              && count <= MAX_PARAMS && params[..count] == Match(t, p, MAX_PARAMS).value
              && params[count..] == old(params[count..])
    ensures !ok ==> count == before
  {
    hide Match, Clamp, Find;
    var i: nat, j: nat := 0, 0;
    var n := 0;
    assert t[0..] == t && p[0..] == p;
    PrependNothing(Match(t, p, MAX_PARAMS));
    while i < |t| && j < |p|
      invariant i <= |t| && j <= |p| && n <= MAX_PARAMS
      invariant Prepend(params[..n], Match(t[i..], p[j..], MAX_PARAMS - n)) == Match(t, p, MAX_PARAMS)
      invariant params[n..] == old(params[n..])
      decreases |t| - i
    {
      if t[i] == OPEN {
        var end := IndexOf(t, i, CLOSE);
        var slash := IndexOf(p, j, SLASH);
        HoleStep(t, p, i, j, end, slash, MAX_PARAMS - n);
        if end == |t| || n >= MAX_PARAMS {
          return false, before;
        }
        var v := Clamp(p[j..slash], MAX_PARAM_VALUE);
        var q := Param(Clamp(t[i + 1..end], MAX_PARAM_NAME), v);
        ghost var front := params[..n];
        params[n] := q;
        PrependTwice(front, [q], Match(t[end + 1..], p[j + |v|..], MAX_PARAMS - n - 1));
        assert params[..n + 1] == front + [q];
        n := n + 1;
        i := end + 1;
        j := j + |v|;
      } else {
        LiteralStep(t, p, i, j, MAX_PARAMS - n);
        if t[i] != p[j] {
          return false, before;
        }
        i, j := i + 1, j + 1;
      }
    }
    MatchEnd(t[i..], p[j..], MAX_PARAMS - n);
    if i < |t| || j < |p| {
      return false, before;
    }
    return true, n;
  }

  lemma PrependNothing(rest: Option<seq<Param>>)
    ensures Prepend([], rest) == rest
  {
    if rest.Some? { assert [] + rest.value == rest.value; }
  }

  lemma MatchEnd(t: Bytes, p: Bytes, room: nat)
    requires t == [] || p == []
    ensures Match(t, p, room) == if t == [] && p == [] then Some([]) else None
  {
  }

  // ------------------------------------------------------- HTTP dispatch

  class Request {
    const verb: Bytes
    const path: Bytes
    const params: array<Param>
    var paramsCount: nat

    constructor (verb: Bytes, path: Bytes)
      ensures this.verb == verb && this.path == path && params.Length == MAX_PARAMS && paramsCount == 0 && fresh(params)
    {
      this.verb, this.path, paramsCount := verb, path, 0;
      params := new Param[MAX_PARAMS](_ => Param([], []));
    }

    /** `cHTTPX_Param`: the value of the first parameter of that name. */
    method Get(name: Bytes) returns (value: Option<Bytes>)
      requires paramsCount <= params.Length
      ensures value == Lookup(params[..paramsCount], name)
    {
      var i := 0;
      while i < paramsCount
        invariant i <= paramsCount && Lookup(params[..paramsCount], name) == Lookup(params[i..paramsCount], name)
      {
        assert params[i..paramsCount][1..] == params[i + 1..paramsCount];
        if params[i].name == name {
          return Some(params[i].value);
        }
        i := i + 1;
      }
      return None;
    }
  }

  function Lookup(ps: seq<Param>, name: Bytes): Option<Bytes> {
    if ps == [] then None else if ps[0].name == name then Some(ps[0].value) else Lookup(ps[1..], name)
  }

  /**
   `find_route`: the first route in table order with the request's method and a matching path, with the
   captures of a fresh match of that route alone, whatever earlier attempts wrote into the shared array.
   */
  method FindRoute(routes: seq<Route>, req: Request) returns (found: Option<nat>)
    requires req.params.Length == MAX_PARAMS
    modifies req`paramsCount, req.params
    ensures found.None? ==> req.paramsCount == old(req.paramsCount)
    ensures found.Some? ==> found.value < |routes|
    ensures forall k :: 0 <= k < (if found.Some? then found.value else |routes|) ==>
              routes[k].verb != req.verb || Match(routes[k].path, req.path, MAX_PARAMS).None?
    ensures found.Some? ==>
      && routes[found.value].verb == req.verb && Match(routes[found.value].path, req.path, MAX_PARAMS).Some?
      && req.paramsCount <= MAX_PARAMS
      && req.params[..req.paramsCount] == Match(routes[found.value].path, req.path, MAX_PARAMS).value
  {
    hide Match;
    var i := 0;
    while i < |routes|
      invariant i <= |routes|
      invariant forall k :: 0 <= k < i ==>
                  routes[k].verb != req.verb || Match(routes[k].path, req.path, MAX_PARAMS).None?
      invariant req.paramsCount == old(req.paramsCount)
    {
      if routes[i].verb == req.verb {
        var ok, count := MatchPath(routes[i].path, req.path, req.params, 0);
        if ok {
          req.paramsCount := count;
          return Some(i);
        }
      }
      i := i + 1;
    }
    return None;
  }

  // ---------------------------------------------------- WebSocket routes

  class WsTable {
    var items: array<WsRoute>
    var count: nat
    /** Every registration, in order. */
    ghost var registered: seq<WsRoute>

    ghost predicate Valid()
      reads this, items
    {
      count <= items.Length && items[..count] == registered
    }

    constructor ()
      ensures Valid() && registered == [] && fresh(items)
    {
      items := new WsRoute[0];
      count := 0;
      registered := [];
    }

    /** `ws_register_route`: doubles a full table, starting at four. */
    method Register(path: Bytes, callbacks: int)
      requires Valid()
      modifies this, items
      ensures Valid() && registered == old(registered) + [WsRoute(path, callbacks)]
      ensures items == old(items) || fresh(items)
      ensures items.Length == if old(count) < old(items).Length then old(items).Length
                              else if old(count) == 0 then 4 else 2 * old(count)
    {
      if count == items.Length {
        var capacity := if items.Length == 0 then 4 else items.Length * 2;
        var bigger := new WsRoute[capacity](_ => WsRoute([], 0));
        forall k | 0 <= k < count { bigger[k] := items[k]; }
        assert bigger[..count] == registered;
        items := bigger;
      }
      items[count] := WsRoute(path, callbacks);
      count := count + 1;
      registered := registered + [WsRoute(path, callbacks)];
    }

    /** `find_ws_route`: the first registered route whose template matches, across any growth of the table. */
    method FindWsRoute(req: Request) returns (found: Option<nat>)
      requires Valid() && req.params.Length == MAX_PARAMS
      modifies req`paramsCount, req.params
      ensures found.None? ==> (forall k :: 0 <= k < |registered| ==>
              Match(registered[k].path, req.path, MAX_PARAMS).None?)
                              && req.paramsCount == old(req.paramsCount)
      ensures found.Some? ==>
        && found.value < |registered| && Match(registered[found.value].path, req.path, MAX_PARAMS).Some?
        && (forall k :: 0 <= k < found.value ==> Match(registered[k].path, req.path, MAX_PARAMS).None?)
        && req.paramsCount <= MAX_PARAMS
        && req.params[..req.paramsCount] == Match(registered[found.value].path, req.path, MAX_PARAMS).value
    {
      hide Match;
      var i := 0;
      while i < count
        invariant i <= count && count == |registered|
        invariant forall k :: 0 <= k < i ==> Match(registered[k].path, req.path, MAX_PARAMS).None?
        invariant req.paramsCount == old(req.paramsCount)
        invariant items[..count] == registered
      {
        assert items[i] == registered[i];
        var ok, n := MatchPath(items[i].path, req.path, req.params, 0);
        if ok {
          req.paramsCount := n;
          return Some(i);
        }
        i := i + 1;
      }
      return None;
    }
  }

  // ------------------------------------------------- what a handler reads

  predicate Distinct(names: seq<Bytes>) {
    forall i, j :: 0 <= i < j < |names| ==> names[i] != names[j]
  }

  lemma {:induction false} LookupBound(names: seq<Bytes>, values: seq<Bytes>, k: nat)
    requires k < |names| == |values| && Distinct(names)
    requires forall i :: 0 <= i < |names| ==> |names[i]| < MAX_PARAM_NAME
    ensures Lookup(Bind(names, values), names[k]) == Some(values[k])
  {
    var ps := Bind(names, values);
    assert ps[0] == Param(names[0], values[0]);
    if k > 0 {
      LookupBound(names[1..], values[1..], k - 1);
      assert ps[1..] == Bind(names[1..], values[1..]);
      assert names[0] != names[k];
    }
  }

  /**
   End to end: for a separated template with distinct, short names, dispatching the path made
   from values that fit makes the look-up of each name return its value.
   */
  lemma HandlerReadsValues(t: Bytes, values: seq<Bytes>, k: nat)
    requires Closed(t) && Separated(t) && Fits(t, values) && k < |values| == |Names(t)| <= MAX_PARAMS
    requires Distinct(Names(t)) && forall i :: 0 <= i < |Names(t)| ==> |Names(t)[i]| < MAX_PARAM_NAME
    ensures var m := Match(t, Subst(t, values), MAX_PARAMS);
            m.Some? && Lookup(m.value, Names(t)[k]) == Some(values[k])
  {
    hide Match, Names, Subst, Fits, Separated, Closed, Lookup, Bind, Distinct;
    MatchComplete(t, values, MAX_PARAMS);
    LookupBound(Names(t), values, k);
  }
}
