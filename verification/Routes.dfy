/**
 Route templates: the matcher of `cHTTPX_MatchPath` as a function, and its meaning in terms of
 substituting values for the placeholders of a template. The cursor loop itself is in `Dispatch`.
 Templates and paths are C strings, given by their bytes before the NUL.
 */
module Routes {
  import opened Bytes

  const MAX_PARAMS := 64
  const MAX_PARAM_NAME := 128
  const MAX_PARAM_VALUE := 1024

  const OPEN: byte := 0x7B
  const CLOSE: byte := 0x7D
  const SLASH: byte := 0x2F

  datatype Param = Param(name: Bytes, value: Bytes)

  // ------------------------------------------------------ the C library

  /** `strchr(s, c)` as an offset; the length when there is none. */
  function Find(s: Bytes, c: byte): (k: nat)
    ensures k <= |s| && c !in s[..k] && (k < |s| ==> s[k] == c)
  {
    if s == [] || s[0] == c then 0
    else
      var k := Find(s[1..], c);
      assert s[..k + 1] == [s[0]] + s[1..][..k];
      k + 1
  }

  lemma FindIs(s: Bytes, c: byte, k: nat)
    requires k <= |s| && c !in s[..k] && (k < |s| ==> s[k] == c)
    ensures Find(s, c) == k
  {
    NotBefore(s, c, k);
    NotBefore(s, c, Find(s, c));
  }

  lemma NotBefore(s: Bytes, c: byte, k: nat)
    requires k <= |s| && c !in s[..k]
    ensures forall i :: 0 <= i < k ==> s[i] != c
  {
    forall i | 0 <= i < k ensures s[i] != c { assert s[..k][i] == s[i]; }
  }

  // --------------------------------------------------------- the matcher

  /** What a placeholder takes from `p`: up to the next slash, clamped to the value buffer. */
  function Segment(p: Bytes): (v: Bytes)
    ensures v <= p
  {
    Clamp(p[..Find(p, SLASH)], MAX_PARAM_VALUE)
  }

  /** The captures of matching `p` against `t` with room for `room` more parameters. */
  function Match(t: Bytes, p: Bytes, room: nat): Option<seq<Param>>
    decreases |t|
  {
    if t == [] || p == [] then
      if t == [] && p == [] then Some([]) else None
    else if t[0] == OPEN then
      var end := Find(t, CLOSE);
      if end == |t| || room == 0 then None
      else
        var v := Segment(p);
        Prepend([Param(Clamp(t[1..end], MAX_PARAM_NAME), v)], Match(t[end + 1..], p[|v|..], room - 1))
    else if t[0] != p[0] then None
    else Match(t[1..], p[1..], room)
  }

  function Prepend(front: seq<Param>, rest: Option<seq<Param>>): Option<seq<Param>> {
    if rest.None? then None else Some(front + rest.value)
  }

  // --------------------------------------------------- meaning of a template

  /** Every `{` that opens a placeholder has its `}`. */
  predicate Closed(t: Bytes)
    decreases |t|
  {
    t == [] ||
    if t[0] == OPEN then Find(t, CLOSE) < |t| && Closed(t[Find(t, CLOSE) + 1..])
    else Closed(t[1..])
  }

  /** The placeholder names, in order. */
  function Names(t: Bytes): seq<Bytes>
    requires Closed(t)
    decreases |t|
  {
    if t == [] then []
    else if t[0] == OPEN then [t[1..Find(t, CLOSE)]] + Names(t[Find(t, CLOSE) + 1..])
    else Names(t[1..])
  }

  /** The template with values put in place of its placeholders, in order. */
  function Subst(t: Bytes, values: seq<Bytes>): Bytes
    requires Closed(t) && |values| == |Names(t)|
    decreases |t|
  {
    if t == [] then []
    else if t[0] == OPEN then values[0] + Subst(t[Find(t, CLOSE) + 1..], values[1..])
    else [t[0]] + Subst(t[1..], values)
  }

  function Values(ps: seq<Param>): (vs: seq<Bytes>)
    ensures |vs| == |ps|
  {
    seq(|ps|, i requires 0 <= i < |ps| => ps[i].value)
  }

  /** The parameters for given names and values; names are clamped, values are not. */
  function Bind(names: seq<Bytes>, values: seq<Bytes>): (ps: seq<Param>)
    requires |names| == |values|
    ensures |ps| == |names|
  {
    seq(|names|, i requires 0 <= i < |names| => Param(Clamp(names[i], MAX_PARAM_NAME), values[i]))
  }

  /** Slash-free and short enough for the value buffer. */
  predicate Plain(v: Bytes) {
    SLASH !in v && |v| < MAX_PARAM_VALUE
  }

  // ----------------------------------------------------------- soundness

  lemma SegmentPlain(p: Bytes)
    ensures Plain(Segment(p)) && p == Segment(p) + p[|Segment(p)|..]
  {
    var seg, v := p[..Find(p, SLASH)], Segment(p);
    forall i | 0 <= i < |v| ensures v[i] != SLASH { assert v[i] == seg[i]; }
  }

  lemma BindFirst(name: Bytes, names: seq<Bytes>, v: Bytes, vs: seq<Bytes>)
    requires |names| == |vs|
    ensures Bind([name] + names, [v] + vs) == [Param(Clamp(name, MAX_PARAM_NAME), v)] + Bind(names, vs)
  {
    hide Clamp;
  }

  lemma ValuesFirst(q: Param, ps: seq<Param>)
    ensures Values([q] + ps) == [q.value] + Values(ps)
  {
  }

  /**
   Whatever the template: a match substitutes back to the path exactly, even when values
   were clamped, and every value is slash-free.
   */
  lemma {:induction false} MatchSound(t: Bytes, p: Bytes, room: nat)
    requires Match(t, p, room).Some?
    ensures var ps := Match(t, p, room).value;
            && Closed(t) && |ps| == |Names(t)| <= room
            && Subst(t, Values(ps)) == p
            && ps == Bind(Names(t), Values(ps))
            && forall i :: 0 <= i < |ps| ==> Plain(ps[i].value)
    decreases |t|
  {
    hide Clamp, Find, Plain, Segment;
    if t == [] {
    } else if t[0] == OPEN {
      var end := Find(t, CLOSE);
      var v := Segment(p);
      var rest := Match(t[end + 1..], p[|v|..], room - 1).value;
      MatchSound(t[end + 1..], p[|v|..], room - 1);
      SegmentPlain(p);
      var q := Param(Clamp(t[1..end], MAX_PARAM_NAME), v);
      ValuesFirst(q, rest);
      BindFirst(t[1..end], Names(t[end + 1..]), v, Values(rest));
      assert Values([q] + rest)[1..] == Values(rest);
    } else {
      MatchSound(t[1..], p[1..], room);
      assert p == [p[0]] + p[1..];
    }
  }

  // -------------------------------------------------------- completeness

  /** Every placeholder is followed by a slash or by the end of the template. */
  predicate Separated(t: Bytes)
    requires Closed(t)
    decreases |t|
  {
    t == [] ||
    if t[0] == OPEN then
      var rest := t[Find(t, CLOSE) + 1..];
      (rest == [] || rest[0] == SLASH) && Separated(rest)
    else Separated(t[1..])
  }

  /** Values a separated template can carry: plain, and not empty where the template ends in a placeholder. */
  predicate Fits(t: Bytes, values: seq<Bytes>)
    requires Closed(t)
    decreases |t|
  {
    && |values| == |Names(t)|
    && (t == [] ||
        if t[0] == OPEN then
          var rest := t[Find(t, CLOSE) + 1..];
          Plain(values[0]) && (rest == [] ==> values[0] != []) && Fits(rest, values[1..])
        else Fits(t[1..], values))
  }

  lemma FindAppend(v: Bytes, rest: Bytes)
    requires SLASH !in v && (rest == [] || rest[0] == SLASH)
    ensures Find(v + rest, SLASH) == |v|
  {
    var s := v + rest;
    assert s[..|v|] == v;
    FindIs(s, SLASH, |v|);
  }

  /** A plain value followed by a slash or the end is exactly what a placeholder takes. */
  lemma SegmentAppend(v: Bytes, rest: Bytes)
    requires Plain(v) && (rest == [] || rest[0] == SLASH)
    ensures Segment(v + rest) == v
  {
    FindAppend(v, rest);
    assert (v + rest)[..|v|] == v;
  }

  /** What follows a placeholder starts with a slash, or is empty when the template ends there. */
  lemma SubstStart(t: Bytes, values: seq<Bytes>)
    requires Closed(t) && |values| == |Names(t)| && (t == [] || t[0] == SLASH)
    ensures var s := Subst(t, values); if t == [] then s == [] else s != [] && s[0] == SLASH
  {
  }

  lemma FitsNonEmpty(t: Bytes, values: seq<Bytes>)
    requires Closed(t) && Separated(t) && Fits(t, values) && t != []
    ensures Subst(t, values) != []
  {
    if t[0] == OPEN {
      SubstStart(t[Find(t, CLOSE) + 1..], values[1..]);
    }
  }

  /** Completeness: a path made from values that fit matches, and the captures are those values. */
  lemma {:induction false} MatchComplete(t: Bytes, values: seq<Bytes>, room: nat)
    requires Closed(t) && Separated(t) && Fits(t, values) && |values| <= room
    ensures Match(t, Subst(t, values), room) == Some(Bind(Names(t), values))
    decreases |t|
  {
    hide Clamp, Plain, Find, Segment;
    var p := Subst(t, values);
    if t != [] {
      FitsNonEmpty(t, values);
      if t[0] == OPEN {
        var end := Find(t, CLOSE);
        var rest := t[end + 1..];
        MatchComplete(rest, values[1..], room - 1);
        SubstStart(rest, values[1..]);
        SegmentAppend(values[0], Subst(rest, values[1..]));
        BindFirst(t[1..end], Names(rest), values[0], values[1..]);
        assert values == [values[0]] + values[1..];
        assert p[|values[0]|..] == Subst(rest, values[1..]);
      } else {
        MatchComplete(t[1..], values, room);
        assert p[1..] == Subst(t[1..], values);
      }
    }
  }

  /** And conversely the captures of a successful match fit. */
  lemma {:induction false} CapturesFit(t: Bytes, p: Bytes, room: nat)
    requires Closed(t) && Separated(t) && Match(t, p, room).Some?
    ensures |Names(t)| <= room && Fits(t, Values(Match(t, p, room).value))
    decreases |t|
  {
    hide Clamp, Plain, Find, Segment;
    MatchSound(t, p, room);
    if t != [] {
      if t[0] == OPEN {
        var end := Find(t, CLOSE);
        var v := Segment(p);
        var rest := Match(t[end + 1..], p[|v|..], room - 1).value;
        CapturesFit(t[end + 1..], p[|v|..], room - 1);
        ValuesFirst(Param(Clamp(t[1..end], MAX_PARAM_NAME), v), rest);
        SegmentPlain(p);
        assert ([v] + Values(rest))[1..] == Values(rest);
      } else {
        CapturesFit(t[1..], p[1..], room);
      }
    }
  }

  /** A separated template matches exactly the paths obtained by substituting values that fit. */
  lemma MatchesExactly(t: Bytes, p: Bytes)
    requires Closed(t) && Separated(t)
    ensures Match(t, p, MAX_PARAMS).Some?
       <==> |Names(t)| <= MAX_PARAMS &&
            exists values :: Fits(t, values) && |values| == |Names(t)| && Subst(t, values) == p
  {
    hide Match, Names, Subst, Fits, Separated, Closed, Plain;
    if Match(t, p, MAX_PARAMS).Some? {
      MatchSound(t, p, MAX_PARAMS);
      CapturesFit(t, p, MAX_PARAMS);
      assert Subst(t, Values(Match(t, p, MAX_PARAMS).value)) == p;
    }
    forall values | Fits(t, values) && |values| == |Names(t)| <= MAX_PARAMS && Subst(t, values) == p
      ensures Match(t, p, MAX_PARAMS).Some?
    {
      MatchComplete(t, values, MAX_PARAMS);
    }
  }

  /** Unambiguous: a path comes from at most one list of values. */
  lemma Unambiguous(t: Bytes, u: seq<Bytes>, v: seq<Bytes>)
    requires Closed(t) && Separated(t) && Fits(t, u) && Fits(t, v) && |u| == |v| == |Names(t)|
    requires Subst(t, u) == Subst(t, v)
    ensures u == v
  {
    hide *;
    MatchComplete(t, u, |u|);
    MatchComplete(t, v, |v|);
    BindInjective(Names(t), u, v);
  }

  lemma BindInjective(names: seq<Bytes>, u: seq<Bytes>, v: seq<Bytes>)
    requires |names| == |u| == |v| && Bind(names, u) == Bind(names, v)
    ensures u == v
  {
    hide Clamp;
    forall i | 0 <= i < |u| ensures u[i] == v[i] { assert Bind(names, u)[i].value == Bind(names, v)[i].value; }
  }

  /** Values no template could object to: plain, not empty, and below the clamp. */
  predicate Modest(values: seq<Bytes>) {
    forall i :: 0 <= i < |values| ==> Plain(values[i]) && 0 < |values[i]| < MAX_PARAM_VALUE - 1
  }

  /** A placeholder takes too much when the text after its value does not start with a slash. */
  lemma SegmentTooLong(v: Bytes, q: Bytes)
    requires Plain(v) && |v| < MAX_PARAM_VALUE - 1 && q != [] && q[0] != SLASH
    ensures Segment(v + q) != v
  {
    var s := v + q;
    forall i | 0 <= i <= |v| ensures s[i] != SLASH {
      if i < |v| { assert s[i] == v[i]; } else { assert s[i] == q[0]; }
    }
    assert Find(s, SLASH) > |v|;
  }

  lemma PrependCancel(front: seq<Param>, rest: Option<seq<Param>>, tail: seq<Param>)
    requires Prepend(front, rest) == Some(front + tail)
    ensures rest == Some(tail)
  {
    assert rest.value == (front + rest.value)[|front|..] == tail;
  }

  lemma SubstNonEmpty(t: Bytes, values: seq<Bytes>)
    requires Closed(t) && |values| == |Names(t)| && Modest(values) && t != [] && t[0] != SLASH
    ensures Subst(t, values) != [] && Subst(t, values)[0] != SLASH
  {
  }

  /** A template that is not separated never gives back modest values. */
  lemma {:induction false} NotSeparatedFails(t: Bytes, values: seq<Bytes>, room: nat)
    requires Closed(t) && !Separated(t) && |values| == |Names(t)| && Modest(values)
    ensures Match(t, Subst(t, values), room) != Some(Bind(Names(t), values))
    decreases |t|
  {
    hide Clamp, Plain, Find, Segment;
    var p := Subst(t, values);
    if t[0] == OPEN {
      var end := Find(t, CLOSE);
      var rest, v := t[end + 1..], values[0];
      var q := Subst(rest, values[1..]);
      BindFirst(t[1..end], Names(rest), v, values[1..]);
      assert values == [v] + values[1..];
      assert Bind(Names(t), values)[0].value == v;
      if Segment(p) == v && rest != [] && rest[0] != SLASH {
        SubstNonEmpty(rest, values[1..]);
        SegmentTooLong(v, q);
      } else if Segment(p) == v {
        NotSeparatedFails(rest, values[1..], if room > 0 then room - 1 else 0);
        assert p[|v|..] == q;
        if room > 0 && Match(t, p, room) == Some(Bind(Names(t), values)) {
          PrependCancel([Param(Clamp(t[1..end], MAX_PARAM_NAME), v)], Match(rest, q, room - 1),
            Bind(Names(rest), values[1..]));
          assert false;
        }
      }
    } else {
      NotSeparatedFails(t[1..], values, room);
      assert p[1..] == Subst(t[1..], values);
    }
  }

  lemma {:induction false} ModestFits(t: Bytes, values: seq<Bytes>)
    requires Closed(t) && |values| == |Names(t)| && Modest(values)
    ensures Fits(t, values)
    decreases |t|
  {
    hide Plain, Find;
    if t != [] {
      if t[0] == OPEN { ModestFits(t[Find(t, CLOSE) + 1..], values[1..]); } else { ModestFits(t[1..], values); }
    }
  }

  /** The matcher recovers modest values exactly from the separated templates. */
  lemma RecoversIffSeparated(t: Bytes, values: seq<Bytes>)
    requires Closed(t) && |values| == |Names(t)| <= MAX_PARAMS && Modest(values)
    ensures Match(t, Subst(t, values), MAX_PARAMS) == Some(Bind(Names(t), values)) <==> Separated(t)
  {
    hide Match, Names, Subst, Fits, Separated, Closed, Modest, Bind;
    if Separated(t) {
      ModestFits(t, values);
      MatchComplete(t, values, MAX_PARAMS);
    } else {
      NotSeparatedFails(t, values, MAX_PARAMS);
    }
  }

  /** A placeholder between braces takes what stands before the next slash or the end. */
  lemma Hole(name: Bytes, t: Bytes, v: Bytes, p: Bytes, room: nat)
    requires 0x7D !in name && |name| < 128 && 0x2F !in v && |v| < 1024 && v + p != [] && room > 0
    requires p == [] || p[0] == 0x2F
    ensures Match([0x7B] + name + [0x7D] + t, v + p, room) == Prepend([Param(name, v)], Match(t, p, room - 1))
  {
    var u := [0x7B] + name + [0x7D] + t;
    FindIs(u, CLOSE, 1 + |name|);
    assert u[..1 + |name|] == [0x7B] + name;
    assert (v + p)[..|v|] == v && (v + p)[|v|..] == p;
    FindIs(v + p, SLASH, |v|);
    assert u[1..1 + |name|] == name && u[2 + |name|..] == t;
  }

  lemma {:induction false} SamePrefix(s: Bytes, t: Bytes, p: Bytes, room: nat)
    requires OPEN !in s
    ensures Match(s + t, s + p, room) == Match(t, p, room)
  {
    if s == [] {
      assert s + t == t && s + p == p;
    } else {
      SamePrefix(s[1..], t, p, room);
      assert (s + t)[1..] == s[1..] + t && (s + p)[1..] == s[1..] + p;
    }
  }

  /** A route as one is written, with a placeholder in the middle. */
  lemma UserPosts()
    ensures Match(Ascii("/users/{id}/posts"), Ascii("/users/42/posts"), 64) == Some([Param(Ascii("id"), Ascii("42"))])
  {
    hide Match;
    RouteParts();
    RouteBytes();
    SamePrefix(Ascii("/users/"), Ascii("{id}/posts"), Ascii("42/posts"), 64);
    Hole(Ascii("id"), Ascii("/posts"), Ascii("42"), Ascii("/posts"), 64);
    SamePrefix(Ascii("/posts"), [], [], 63);
    assert Match([], [], 63) == Some([]) by { NothingMatches(63); }
    assert [Param(Ascii("id"), Ascii("42"))] + [] == [Param(Ascii("id"), Ascii("42"))];
  }

  lemma NothingMatches(room: nat)
    ensures Match([], [], room) == Some([])
  {
  }

  lemma RouteBytes()
    ensures OPEN !in Ascii("/users/") && OPEN !in Ascii("/posts") && 0x7D !in Ascii("id") && 0x2F !in Ascii("42")
  {
  }

  lemma RouteParts()
    ensures Ascii("/users/{id}/posts") == Ascii("/users/") + Ascii("{id}/posts")
    ensures Ascii("/users/42/posts") == Ascii("/users/") + Ascii("42/posts")
    ensures Ascii("{id}/posts") == [0x7B] + Ascii("id") + [0x7D] + Ascii("/posts")
    ensures Ascii("42/posts") == Ascii("42") + Ascii("/posts")
    ensures Ascii("/posts") + [] == Ascii("/posts") && Ascii("/posts")[0] == 0x2F
  {
    AsciiJoins("/users/", "{id}/posts");
    AsciiJoins("/users/", "42/posts");
    AsciiJoins("42", "/posts");
    AsciiJoins("{id}", "/posts");
    assert Ascii("{id}") == [0x7B] + Ascii("id") + [0x7D];
  }

  /** Without the separator the matcher is greedy: `{a}{b}` misses "xy", which has values that fit each hole. */
  lemma AdjacentHoles()
    ensures var t := [OPEN, 0x61, CLOSE, OPEN, 0x62, CLOSE];
            Closed(t) && |Names(t)| == 2 && Subst(t, [[0x78], [0x79]]) == [0x78, 0x79]
            && Match(t, [0x78, 0x79], MAX_PARAMS).None?
  {
    var t := [OPEN, 0x61, CLOSE, OPEN, 0x62, CLOSE];
    FindIs(t, CLOSE, 2);
    var u := t[3..];
    assert u == [OPEN, 0x62, CLOSE];
    FindIs(u, CLOSE, 2);
    assert u[3..] == [];
    var p: Bytes := [0x78, 0x79];
    FindIs(p, SLASH, 2);
    assert p[..2] == p && p[2..] == [];
    assert u[1..2] == [0x62] && Names(u[3..]) == [];
    assert Names(u) == [[0x62]];
    assert t[1..2] == [0x61];
    assert [[0x78], [0x79]][1..] == [[0x79]];
    assert Subst(u, [[0x79]]) == [0x79];
  }
}
