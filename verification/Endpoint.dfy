/**
 The arguments of an endpoint's call: from the path, the query string or the form of a request, decoded
 where they stand in the request buffer.
 */
module Endpoint {
  import opened Seqs
  import opened Strs
  import opened StringPools
  import opened UrlDecode
  import opened FormParameters
  import opened Routes

  // ----- route parameters -----

  /** Some argument of that name has a value. */
  ghost predicate Given(name: string, names: seq<string>, has: seq<bool>) {
    exists i :: 0 <= i < |names| && i < |has| && names[i] == name && has[i]
  }

  /** The argument values that the parameters give, for as many of the parameters as have been taken. */
  ghost predicate Taken(ps: seq<Param>, names: seq<string>, args: seq<Slice>, has: seq<bool>) {
    && |args| == |has| == |names|
    && (forall i | 0 <= i < |names| && has[i] :: Param(names[i], args[i]) in ps)
    && (forall p | p in ps :: Given(p.name, names, has))
  }

  /** The path matches, and all its parameters are arguments. */
  predicate Declared(r: Option<seq<Param>>, names: seq<string>) {
    r.Some? && forall p | p in r.value :: p.name in names
  }

  /** The loop of mugshot_path_match: what has been taken, and what is still to be matched. */
  ghost predicate Going(all: Option<seq<Param>>, taken: seq<Param>, route: string, path: string, offset: nat,
                        names: seq<string>, args: seq<Slice>, has: seq<bool>)
  {
    && Taken(taken, names, args, has) && Declared(Some(taken), names)
    && all == Prepended(taken, Match(route, path, offset))
  }

  /**
   mugshot_path_match. It is true exactly when the path matches and every parameter is an argument; and
   then an argument has a value exactly when the route gives it one, which is a slice of the path.
   */
  method PathMatch(buf: array<char>, route: string, path: Slice, names: seq<string>, args: array<Slice>,
                   hasValue: array<bool>)
    returns (ok: bool)
    requires path.End() <= buf.Length && args.Length == hasValue.Length == |names|
    requires forall n | n in names :: NulFree(n)
    modifies args, hasValue
    ensures var m := Match(route, Text(buf[..], path), path.start);
            ok == Declared(m, names) && (ok ==> Taken(m.value, names, args[..], hasValue[..]))
  {
    hide Match, NulFree, Text, FirstAt, Taken, Declared, Going;
    ghost var b := buf[..];
    ghost var all := Match(route, Text(b, path), path.start);
    for i := 0 to |names|
      invariant forall k | 0 <= k < i :: !hasValue[k]
    {
      hasValue[i] := false;
    }
    var r, p := route, path;
    ghost var taken: seq<Param> := [];
    NothingTaken(all, r, Text(b, p), p.start, names, args[..], hasValue[..]);
    while |r| > 0 && p.len > 0
      invariant p.End() <= buf.Length && buf[..] == b
      invariant Going(all, taken, r, Text(b, p), p.start, names, args[..], hasValue[..])
      decreases |r|
    {
      TextChar(b, p);
      if buf[p.start] == r[0] {
        GoOn(all, taken, r, Text(b, p), p.start, names, args[..], hasValue[..]);
        r, p := r[1..], Slice(p.start + 1, p.len - 1);
      } else if r[0] == ':' {
        var more;
        more, r, p, taken := TakeParam(buf, r, p, names, args, hasValue, taken, all);
        if !more {
          return false;
        }
      } else {
        Stuck(all, taken, r, Text(b, p), p.start, names, args[..], hasValue[..]);
        return false;
      }
    }
    TextLength(b, p);
    AtEnd(all, taken, r, Text(b, p), p.start, names, args[..], hasValue[..]);
    ok := p.len == 0 && |r| == 0;
  }

  /** The parameter case of the loop. */
  method TakeParam(buf: array<char>, r: string, p: Slice, names: seq<string>, args: array<Slice>, hasValue: array<bool>,
                   ghost taken: seq<Param>, ghost all: Option<seq<Param>>)
    returns (more: bool, route: string, path: Slice, ghost later: seq<Param>)
    requires p.End() <= buf.Length && p.len > 0 && r != "" && r[0] == ':' && buf[p.start] != ':'
    requires forall n | n in names :: NulFree(n)
    requires Going(all, taken, r, Text(buf[..], p), p.start, names, args[..], hasValue[..])
    modifies args, hasValue
    ensures path.End() <= buf.Length && |route| < |r|
    ensures !more ==> !Declared(all, names)
    ensures more ==> Going(all, later, route, Text(buf[..], path), path.start, names, args[..], hasValue[..])
  {
    hide *;
    ghost var b := buf[..];
    BufferSize(buf, p);
    TextChar(b, p);
    TextLength(b, p);
    RestText(b, p);
    GoingParts(all, taken, r, Text(b, p), p.start, names, args[..], hasValue[..]);
    MatchParam(r, Text(b, p), p.start);
    var split, value, rest := SplitAt(buf, p, '/');
    route, path, later, more := Rest(r), rest, taken, value.len > 0;
    if value.len == 0 {
      Unmatched(taken, names);
      return;
    }
    var name := ParamName(r);
    ghost var tail := Match(Rest(r), Rest(Text(b, p)), p.start + value.len + 1);
    PrependedMore(taken, Param(name, value), tail);
    more := BindParam(names, name, value, args, hasValue, taken);
    if !more {
      Undeclared(taken, Param(name, value), tail, names);
      return;
    }
    later := taken + [Param(name, value)];
    DeclaredMore(taken, Param(name, value), names);
    MatchAnywhere(Rest(r), Rest(Text(b, p)), p.start + value.len + 1, rest.start);
    GoingIntro(all, later, Rest(r), Rest(Text(b, p)), rest.start, names, args[..], hasValue[..]);
  }

  lemma BufferSize(buf: array<char>, p: Slice)
    requires p.End() <= buf.Length
    ensures p.End() <= |buf[..]|
    ensures p.len > 0 ==> p.start < buf.Length && buf[..][p.start] == buf[p.start]
  {}

  lemma NothingTaken(all: Option<seq<Param>>, route: string, path: string, offset: nat, names: seq<string>,
                     args: seq<Slice>, has: seq<bool>)
    requires all == Match(route, path, offset)
    requires |args| == |has| == |names| && forall k | 0 <= k < |names| :: !has[k]
    ensures Going(all, [], route, path, offset, names, args, has)
  {
    hide Match;
    if all.Some? { assert [] + all.value == all.value; }
  }

  lemma GoingParts(all: Option<seq<Param>>, taken: seq<Param>, route: string, path: string, offset: nat,
                   names: seq<string>, args: seq<Slice>, has: seq<bool>)
    requires Going(all, taken, route, path, offset, names, args, has)
    ensures Taken(taken, names, args, has) && Declared(Some(taken), names)
    ensures all == Prepended(taken, Match(route, path, offset))
  {}

  lemma GoingIntro(all: Option<seq<Param>>, taken: seq<Param>, route: string, path: string, offset: nat,
                   names: seq<string>, args: seq<Slice>, has: seq<bool>)
    requires Taken(taken, names, args, has) && Declared(Some(taken), names)
    requires all == Prepended(taken, Match(route, path, offset))
    ensures Going(all, taken, route, path, offset, names, args, has)
  {}

  lemma GoOn(all: Option<seq<Param>>, taken: seq<Param>, route: string, path: string, offset: nat, names: seq<string>,
             args: seq<Slice>, has: seq<bool>)
    requires Going(all, taken, route, path, offset, names, args, has) && route != "" && path != ""
    requires route[0] == path[0]
    ensures Going(all, taken, route[1..], path[1..], offset + 1, names, args, has)
  {
    MatchChar(route, path, offset);
    hide Match, Taken, Declared;
  }

  lemma Stuck(all: Option<seq<Param>>, taken: seq<Param>, route: string, path: string, offset: nat, names: seq<string>,
              args: seq<Slice>, has: seq<bool>)
    requires Going(all, taken, route, path, offset, names, args, has)
    requires route != "" && path != "" && route[0] != path[0] && route[0] != ':'
    ensures !Declared(all, names)
  {}

  lemma AtEnd(all: Option<seq<Param>>, taken: seq<Param>, route: string, path: string, offset: nat, names: seq<string>,
              args: seq<Slice>, has: seq<bool>)
    requires Going(all, taken, route, path, offset, names, args, has) && (route == "" || path == "")
    ensures Declared(all, names) <==> route == "" && path == ""
    ensures route == "" && path == "" ==> all == Some(taken) && Taken(taken, names, args, has)
  {
    hide Taken;
    assert taken + [] == taken;
  }

  function Prepended(taken: seq<Param>, r: Option<seq<Param>>): Option<seq<Param>> {
    match r
    case None => None
    case Some(ps) => Some(taken + ps)
  }

  lemma Unmatched(taken: seq<Param>, names: seq<string>)
    ensures !Declared(Prepended(taken, None), names)
  {}

  lemma PrependedMore(taken: seq<Param>, p: Param, rest: Option<seq<Param>>)
    ensures var here := if rest.None? then None else Some([p] + rest.value);
            Prepended(taken, here) == Prepended(taken + [p], rest)
  {
    if rest.Some? { assert taken + ([p] + rest.value) == taken + [p] + rest.value; }
  }

  lemma Undeclared(taken: seq<Param>, p: Param, rest: Option<seq<Param>>, names: seq<string>)
    requires p.name !in names
    ensures !Declared(Prepended(taken + [p], rest), names)
  {
    var all := Prepended(taken + [p], rest);
    if all.Some? {
      assert all.value[|taken|] == p;
      assert p in all.value;
    }
  }

  lemma DeclaredMore(taken: seq<Param>, p: Param, names: seq<string>)
    requires Declared(Some(taken), names) && p.name in names
    ensures Declared(Some(taken + [p]), names)
  {}

  lemma TakeOne(taken: seq<Param>, names: seq<string>, args: seq<Slice>, has: seq<bool>, arg: nat, value: Slice)
    requires Taken(taken, names, args, has) && arg < |names|
    ensures Taken(taken + [Param(names[arg], value)], names, args[arg := value], has[arg := true])
  {
    var one, has' := Param(names[arg], value), has[arg := true];
    var taken', args' := taken + [one], args[arg := value];
    forall i | 0 <= i < |names| && has'[i] ensures Param(names[i], args'[i]) in taken' {
      if i == arg {
        assert taken'[|taken|] == one;
      } else {
        assert Param(names[i], args[i]) in taken;
      }
    }
    forall p | p in taken' ensures Given(p.name, names, has') {
      if p in taken {
        StillGiven(p.name, names, has, arg);
      } else {
        assert names[arg] == p.name && has'[arg];
      }
    }
  }

  lemma StillGiven(name: string, names: seq<string>, has: seq<bool>, arg: nat)
    requires Given(name, names, has) && arg < |has| == |names|
    ensures Given(name, names, has[arg := true])
  {
    var i :| 0 <= i < |names| && names[i] == name && has[i];
    assert has[arg := true][i];
  }

  lemma TextChar(b: seq<char>, s: Slice)
    requires s.End() <= |b| && s.len > 0
    ensures Text(b, s) != "" && Text(b, s)[0] == b[s.start]
    ensures Text(b, Slice(s.start + 1, s.len - 1)) == Text(b, s)[1..]
  {}

  lemma RestText(b: seq<char>, s: Slice)
    requires s.End() <= |b| && s.len > 0
    ensures |Text(b, s)| == s.len
    ensures var k := FirstAt(Text(b, s), '/');
            && (k < s.len ==>
                  var rest := Slice(s.start + k + 1, s.len - k - 1);
                  rest.End() <= |b| && Rest(Text(b, s)) == Text(b, rest))
            && (k == s.len ==> NOWHERE.End() <= |b| && Rest(Text(b, s)) == "" == Text(b, NOWHERE))
  {
    TextLength(b, s);
    var t := Text(b, s);
    var k := FirstAt(t, '/');
    AfterSlash(t);
    hide FirstAt, Text, Rest;
    if k < s.len {
      TextSuffix(b, s, k + 1);
    } else {
      EmptyText(b, NOWHERE);
    }
  }

  lemma {:induction false} AfterSlash(t: string)
    ensures var k := FirstAt(t, '/'); k <= |t| && Rest(t) == if k < |t| then t[k + 1..] else ""
  {
    hide FirstAt;
  }

  lemma MatchAnywhere(r: string, path: string, o: nat, o': nat)
    requires path == "" || o == o'
    ensures Match(r, path, o) == Match(r, path, o')
  {}

  /** The argument of a name: the loop that finds its index, or -1. */
  method IndexOfName(names: seq<string>, name: string) returns (arg: int)
    requires forall n | n in names :: NulFree(n)
    ensures -1 <= arg < |names| && (arg == -1 <==> name !in names)
    ensures arg >= 0 ==> names[arg] == name
  {
    hide NulFree;
    for i := 0 to |names|
      invariant name !in names[..i]
    {
      assert names[i] in names;
      StrEqIsEquality(names[i], name);
      if StrEq(names[i], name) {
        return i;
      }
      assert names[..i + 1] == names[..i] + [names[i]];
    }
    assert names[..|names|] == names;
    return -1;
  }

  /** Marks the argument of a parameter's name as having its value. */
  method BindParam(names: seq<string>, name: string, value: Slice, args: array<Slice>, hasValue: array<bool>,
                   ghost taken: seq<Param>)
    returns (declared: bool)
    requires (forall n | n in names :: NulFree(n)) && Taken(taken, names, args[..], hasValue[..])
    modifies args, hasValue
    ensures declared == (name in names)
    ensures declared ==> Taken(taken + [Param(name, value)], names, args[..], hasValue[..])
  {
    TakenLengths(taken, names, args[..], hasValue[..]);
    hide *;
    var arg := IndexOfName(names, name);
    if arg == -1 {
      return false;
    }
    ghost var args0, has0 := args[..], hasValue[..];
    args[arg] := value;
    hasValue[arg] := true;
    TakeOne(taken, names, args0, has0, arg, value);
    assert args[..] == args0[arg := value] && hasValue[..] == has0[arg := true];
    declared := true;
  }

  lemma TakenLengths(taken: seq<Param>, names: seq<string>, args: seq<Slice>, has: seq<bool>)
    requires Taken(taken, names, args, has)
    ensures |args| == |has| == |names|
  {}

  /** The name that a route starts with: a split at the slash, without the colon. */
  method ParamName(route: string) returns (name: string)
    requires route != "" && route[0] == ':'
    ensures name == Name(route)
  {
    var ok, split, rest := StrSplitAt(route, "/");
    SplitIsFirst(route, '/');
    name := Drop(split, 1);
  }

  // ----- all the arguments -----

  predicate Before(a: Slice, b: Slice) {
    a.len == 0 || b.len == 0 || a.End() <= b.start
  }

  /** Where the parts of a request stand in its buffer: path, query string, body. */
  predicate Layout(size: nat, path: Slice, query: Slice, body: Slice) {
    && path.End() <= size && query.End() <= size && body.End() <= size
    && Before(path, query) && Before(path, body) && Before(query, body)
  }

  /** Where an argument comes from: the path, or the query string, or the form. */
  predicate Source(buf: seq<char>, query: Slice, isForm: bool, body: Slice, ps: seq<Param>, name: string, s: Slice)
    requires query.End() <= |buf| && body.End() <= |buf|
  {
    Param(name, s) in ps
    || ((forall p | p in ps :: p.name != name) && Lookup(buf, query, isForm, body, name) == Some(s))
  }

  lemma {:induction false} ParamsWithin(route: string, path: string, offset: nat)
    requires Match(route, path, offset).Some?
    ensures forall p | p in Match(route, path, offset).value ::
              offset <= p.value.start && p.value.End() <= offset + |path|
    decreases |route|
  {
    hide Match, FirstAt, Name, Rest, Cut;
    MatchEnds(route, path, offset);
    if route != "" && path != "" {
      if route[0] == path[0] {
        MatchChar(route, path, offset);
        ParamsWithin(route[1..], path[1..], offset + 1);
      } else {
        MatchParam(route, path, offset);
        var m := FirstAt(path, '/');
        ParamsWithin(Rest(route), Rest(path), offset + m + 1);
        RestLength(path);
        if Rest(path) == "" {
          NothingFromNothing(Rest(route), Rest(path), offset + m + 1);
        }
      }
    } else {
      NoMatch(route, path, offset);
    }
  }

  lemma RestLength(path: string)
    ensures var m := FirstAt(path, '/'); if m < |path| then |Rest(path)| == |path| - m - 1 else Rest(path) == ""
  {
    hide FirstAt;
  }

  lemma NothingFromNothing(route: string, path: string, offset: nat)
    requires path == "" && Match(route, path, offset).Some?
    ensures Match(route, path, offset) == Some([])
  {}

  /** Distinct parameters of a match do not overlap. */
  lemma {:induction false} ParamsApart(route: string, path: string, offset: nat, p: Param, q: Param)
    requires Match(route, path, offset).Some? && p != q
    requires p in Match(route, path, offset).value && q in Match(route, path, offset).value
    ensures Apart(p.value, q.value)
    decreases |route|
  {
    hide Cut, Name, Rest, FirstAt;
    MatchEnds(route, path, offset);
    if route != "" && path != "" {
      if route[0] == path[0] {
        ParamsApart(route[1..], path[1..], offset + 1, p, q);
      } else {
        var m := FirstAt(path, '/');
        var first := Param(Name(route), Slice(offset, m));
        ParamsWithin(Rest(route), Rest(path), offset + m + 1);
        if p != first && q != first {
          ParamsApart(Rest(route), Rest(path), offset + m + 1, p, q);
        }
      }
    }
  }

  lemma LookupWithin(b: seq<char>, query: Slice, isForm: bool, body: Slice, name: string)
    requires query.End() <= |b| && body.End() <= |b| && Lookup(b, query, isForm, body, name).Some?
    ensures var s := Lookup(b, query, isForm, body, name).value;
            Within(s, query.start, query.End()) || Within(s, body.start, body.End())
  {
    hide FindParameter;
    if FindParameter(Text(b, query), query.start, name).Some? {
      FoundWithin(Text(b, query), query.start, name);
    } else {
      FoundWithin(Text(b, body), body.start, name);
    }
  }

  lemma LookupApart(b: seq<char>, query: Slice, isForm: bool, body: Slice, name: string, other: string)
    requires query.End() <= |b| && body.End() <= |b| && Before(query, body) && name != other
    requires Lookup(b, query, isForm, body, name).Some? && Lookup(b, query, isForm, body, other).Some?
    ensures Apart(Lookup(b, query, isForm, body, name).value, Lookup(b, query, isForm, body, other).value)
  {
    hide FindParameter;
    var q, f := Text(b, query), Text(b, body);
    var nq, oq := FindParameter(q, query.start, name).Some?, FindParameter(q, query.start, other).Some?;
    if nq && oq {
      FoundApart(q, query.start, name, other);
    } else if nq {
      FoundWithin(q, query.start, name);
      FoundWithin(f, body.start, other);
    } else if oq {
      FoundWithin(q, query.start, other);
      FoundWithin(f, body.start, name);
    } else {
      FoundApart(f, body.start, name, other);
    }
  }

  /** Arguments of different names come from places that do not overlap. */
  lemma SourcesApart(b: seq<char>, route: string, path: Slice, query: Slice, isForm: bool, body: Slice, name: string,
                     s: Slice, other: string, t: Slice)
    requires Layout(|b|, path, query, body) && name != other && Match(route, Text(b, path), path.start).Some?
    requires Source(b, query, isForm, body, Match(route, Text(b, path), path.start).value, name, s)
    requires Source(b, query, isForm, body, Match(route, Text(b, path), path.start).value, other, t)
    ensures Apart(s, t) && s.End() <= |b|
  {
    hide Match, FindParameter, Text, Lookup;
    var ps := Match(route, Text(b, path), path.start).value;
    ParamsWithin(route, Text(b, path), path.start);
    TextLength(b, path);
    if Param(name, s) in ps && Param(other, t) in ps {
      ParamsApart(route, Text(b, path), path.start, Param(name, s), Param(other, t));
    } else {
      if Param(name, s) !in ps { LookupWithin(b, query, isForm, body, name); }
      if Param(other, t) !in ps { LookupWithin(b, query, isForm, body, other); }
      if Param(name, s) !in ps && Param(other, t) !in ps { LookupApart(b, query, isForm, body, name, other); }
    }
  }

  // ----- decoding where they stand -----

  /** What decoding makes of a text that fills a slice: a failure leaves its end as it was. */
  function Decoded(e: string): string {
    if Decode(e).1 then Decode(e).0 else Decode(e).0 + e[|Decode(e).0|..]
  }

  /**
   The server does not look at the outcome: an argument that is a percent-encoding arrives decoded, and
   exactly any other arrives as long as it was, its start written over with what was decoded by then.
   */
  lemma ArrivesDecoded(e: string)
    ensures Decode(e).1 <==> exists v :: Encodes(e, v)
    ensures Decode(e).1 ==> Encodes(e, Decoded(e))
    ensures !Decode(e).1 ==> |Decoded(e)| == |e| && Decoded(e)[|Decode(e).0|..] == e[|Decode(e).0|..]
  {
    DecodeExactly(e, Decode(e).0);
    if v :| Encodes(e, v) {
      DecodeExactly(e, v);
    }
    hide Decode, Encodes;
  }

  /** `%41%zz` arrives as `A41%zz`. */
  lemma HalfDecoded()
    ensures Decoded("%41%zz") == "A41%zz" && !Decode("%41%zz").1
  {
    var e := "%41%zz";
    assert e[3..] == "%zz" && Decode("%zz") == ("", false);
    assert Octet('4', '1') == 'A';
    assert Decode(e).0 == "A";
    assert e[1..] == "41%zz" && "A" + "41%zz" == "A41%zz";
  }

  function DecodedSlice(s: Slice, e: string): Slice {
    if Decode(e).1 then Slice(s.start, |Decode(e).0|) else s
  }

  ghost predicate AllApart(slices: seq<Slice>) {
    forall i, j | 0 <= i < j < |slices| :: Apart(slices[i], slices[j])
  }

  ghost predicate AllInside(slices: seq<Slice>, size: nat) {
    forall i | 0 <= i < |slices| :: slices[i].End() <= size
  }

  /** Slices up to i have been decoded, the others are as they were. */
  ghost predicate DecodedTo(b: seq<char>, b0: seq<char>, now: seq<Slice>, before: seq<Slice>, i: nat) {
    && |now| == |before| && |b| == |b0| && AllInside(before, |b0|) && AllInside(now, |b0|)
    && (forall k | 0 <= k < |now| && k < i ::
          now[k] == DecodedSlice(before[k], Text(b0, before[k])) && Text(b, now[k]) == Decoded(Text(b0, before[k])))
    && (forall k | i <= k < |now| :: now[k] == before[k] && Text(b, now[k]) == Text(b0, before[k]))
  }

  /** The decoding loop of the server: no slice disturbs another, whatever the outcome of its decoding. */
  method DecodeArguments(buf: array<char>, args: array<Slice>)
    requires AllApart(args[..]) && AllInside(args[..], buf.Length)
    modifies buf, args
    ensures DecodedTo(buf[..], old(buf[..]), args[..], old(args[..]), args.Length)
  {
    hide *;
    ghost var b0, before := buf[..], args[..];
    NoneDecoded(b0, before);
    var i := 0;
    while i < args.Length
      invariant 0 <= i <= args.Length && DecodedTo(buf[..], b0, args[..], before, i)
    {
      ghost var b, now := buf[..], args[..];
      OneInside(b, b0, now, before, i);
      var ok, out := StrUrlDecode(buf, args[i]);
      args[i] := out;
      assert args[..] == now[i := out];
      OneDecoded(b, buf[..], b0, now, before, i, ok, out);
      i := i + 1;
    }
  }

  lemma NoneDecoded(b: seq<char>, slices: seq<Slice>)
    requires AllInside(slices, |b|)
    ensures DecodedTo(b, b, slices, slices, 0)
  {}

  lemma OneInside(b: seq<char>, b0: seq<char>, now: seq<Slice>, before: seq<Slice>, i: nat)
    requires DecodedTo(b, b0, now, before, i) && i < |now|
    ensures now[i] == before[i] && now[i].End() <= |b| && Text(b, now[i]) == Text(b0, before[i])
  {
    hide Decode;
  }

  /** Writing inside a slice leaves the text of any slice apart from it alone. */
  lemma TextKept(b: seq<char>, s: Slice, t: string, other: Slice)
    requires s.End() <= |b| && other.End() <= |b| && |t| <= s.len && Apart(s, other)
    ensures var b' := b[..s.start] + t + b[s.start + |t|..]; |b'| == |b| && Text(b', other) == Text(b, other)
  {
    var b' := b[..s.start] + t + b[s.start + |t|..];
    forall k | other.start <= k < other.End() ensures b'[k] == b[k] {}
    assert b'[other.start..other.End()] == b[other.start..other.End()];
  }

  lemma OneDecoded(b: seq<char>, b': seq<char>, b0: seq<char>, now: seq<Slice>, before: seq<Slice>, i: nat, ok: bool,
                   out: Slice)
    requires DecodedTo(b, b0, now, before, i) && i < |now| && AllApart(before)
    requires now[i].End() <= |b|
    requires var e := Text(b, now[i]);
             && ok == Decode(e).1 && out == Slice(now[i].start, if ok then |Decode(e).0| else now[i].len)
             && b' == b[..now[i].start] + Decode(e).0 + b[now[i].start + |Decode(e).0|..]
    ensures DecodedTo(b', b0, now[i := out], before, i + 1)
  {
    hide *;
    var s, e := now[i], Text(b, now[i]);
    var t, now' := Decode(e).0, now[i := out];
    TextLength(b, s);
    OneInside(b, b0, now, before, i);
    OwnText(b, s, t, ok, out);
    Same(b, b0, now, before, i);
    forall k | 0 <= k < |now| && k != i
      ensures now'[k] == now[k] && now[k].End() <= |b'| == |b| && Text(b', now'[k]) == Text(b, now[k])
    {
      ShorterApart(b, before, now, b0, k, i);
      TextKept(b, s, t, now[k]);
    }
    DecodedMore(b, b', b0, now, before, i, ok, out);
  }

  lemma Same(b: seq<char>, b0: seq<char>, now: seq<Slice>, before: seq<Slice>, i: nat)
    requires DecodedTo(b, b0, now, before, i)
    ensures |now| == |before| && |b| == |b0| && forall k | 0 <= k < |now| :: now[k].End() <= |b|
  {
    hide Decode, Text;
  }

  lemma DecodedMore(b: seq<char>, b': seq<char>, b0: seq<char>, now: seq<Slice>, before: seq<Slice>, i: nat, ok: bool,
                    out: Slice)
    requires DecodedTo(b, b0, now, before, i) && i < |now| && |b'| == |b|
    requires var e := Text(b, now[i]);
             && ok == Decode(e).1 && out == Slice(now[i].start, if ok then |Decode(e).0| else now[i].len)
             && out.End() <= |b'| && Text(b', out) == if ok then Decode(e).0 else Decode(e).0 + e[|Decode(e).0|..]
    requires forall k | 0 <= k < |now| && k != i :: now[k].End() <= |b'| && Text(b', now[k]) == Text(b, now[k])
    ensures DecodedTo(b', b0, now[i := out], before, i + 1)
  {
    hide Decode, Text;
  }

  lemma OwnText(b: seq<char>, s: Slice, t: string, ok: bool, out: Slice)
    requires s.End() <= |b| && |t| <= |Text(b, s)| && out == Slice(s.start, if ok then |t| else s.len)
    ensures var b' := b[..s.start] + t + b[s.start + |t|..];
            && out.End() <= |b'| == |b| && Text(b', out) == if ok then t else t + Text(b, s)[|t|..]
  {}

  lemma ShorterApart(b: seq<char>, before: seq<Slice>, now: seq<Slice>, b0: seq<char>, k: nat, i: nat)
    requires AllApart(before) && DecodedTo(b, b0, now, before, i) && k < |now| && i < |now| && k != i
    ensures Apart(now[i], now[k])
  {
    hide Decode, Text;
    assert Apart(before[i], before[k]) by {
      if i < k { assert Apart(before[i], before[k]); } else { assert Apart(before[k], before[i]); }
    }
    if k < i {
      TextLength(b0, before[k]);
    }
  }

  // ----- from request to call -----

  /** A name that the route gives no value. */
  predicate Free(ps: seq<Param>, name: string) {
    forall p | p in ps :: p.name != name
  }

  ghost predicate KeysDiffer(pairs: seq<(string, string)>) {
    forall i, j | 0 <= i < j < |pairs| :: pairs[i].0 != pairs[j].0
  }

  /** The arguments that have not been looked up yet. */
  ghost predicate Sourced(b: seq<char>, query: Slice, isForm: bool, body: Slice, ps: seq<Param>, names: seq<string>,
                          slices: seq<Slice>, i: nat)
    requires query.End() <= |b| && body.End() <= |b|
  {
    && |slices| == |names|
    && forall k | 0 <= k < |names| && (k < i || !Free(ps, names[k])) ::
      Source(b, query, isForm, body, ps, names[k], slices[k])
  }

  /** The text is a query string of different keys with percent-encodings of these texts. */
  ghost predicate Carries(t: string, pairs: seq<(string, string)>, texts: seq<string>) {
    && t == Query(pairs) && PairsOk(pairs) && KeysDiffer(pairs)
    && |texts| == |pairs| && forall j | 0 <= j < |pairs| :: Encodes(pairs[j].1, texts[j])
  }

  /** The path is the route filled with percent-encodings of these texts. */
  ghost predicate PathCarries(route: string, path: string, values: seq<string>, texts: seq<string>) {
    && |values| == |texts| == |ParamNames(route)| && Distinct(ParamNames(route))
    && Segments(values) && (forall v | v in values :: !StartsWithColon(v))
    && Filled(route, values, path) && forall j | 0 <= j < |values| :: Encodes(values[j], texts[j])
  }

  ghost predicate ArgumentIs(b: seq<char>, args: seq<Slice>, i: nat, text: string) {
    i < |args| && args[i].End() <= |b| && Text(b, args[i]) == text
  }

  /** Every argument that comes from the path ends up as exactly the text that was encoded. */
  ghost predicate PathArrives(b: seq<char>, b': seq<char>, route: string, path: Slice, names: seq<string>,
                              args: seq<Slice>)
    requires path.End() <= |b|
  {
    forall values: seq<string>, texts: seq<string> | PathCarries(route, Text(b, path), values, texts) ::
      forall i, j | 0 <= i < |names| && 0 <= j < |texts| && names[i] == ParamNames(route)[j] ::
        ArgumentIs(b', args, i, texts[j])
  }

  /** And so does every other one that is in the query string. */
  ghost predicate QueryArrives(b: seq<char>, b': seq<char>, query: Slice, ps: seq<Param>, names: seq<string>,
                               args: seq<Slice>)
    requires query.End() <= |b|
  {
    forall pairs: seq<(string, string)>, texts: seq<string> | Carries(Text(b, query), pairs, texts) ::
      forall i, j | 0 <= i < |names| && 0 <= j < |texts| && names[i] == pairs[j].0 && Free(ps, names[i]) ::
        ArgumentIs(b', args, i, texts[j])
  }

  /** And every one that is in the form and not in the query string. */
  ghost predicate FormArrives(b: seq<char>, b': seq<char>, query: Slice, body: Slice, ps: seq<Param>,
                              names: seq<string>, args: seq<Slice>)
    requires query.End() <= |b| && body.End() <= |b|
  {
    forall pairs: seq<(string, string)>, texts: seq<string> | Carries(Text(b, body), pairs, texts) ::
      forall i, j | 0 <= i < |names| && 0 <= j < |texts| && names[i] == pairs[j].0 && Free(ps, names[i])
                    && FindParameter(Text(b, query), query.start, names[i]).None? ::
        ArgumentIs(b', args, i, texts[j])
  }

  /**
   The handling of a request by the server: match the route; take what it does not give from the query
   string or the form; decode every argument where it stands. `sources` are the slices before decoding.
   The last clauses are the whole way of an argument: where the path, the query string or the form carries
   percent-encoded texts, the argument of that name ends up as exactly the text that was encoded.
   */
  method CallArguments(buf: array<char>, route: string, path: Slice, query: Slice, isForm: bool, body: Slice,
                       names: seq<string>, args: array<Slice>)
    returns (matched: bool, found: bool, ghost sources: seq<Slice>)
    requires Layout(buf.Length, path, query, body) && Distinct(names) && args.Length == |names|
    requires forall n | n in names :: NulFree(n)
    modifies buf, args
    ensures var m := Match(route, Text(old(buf[..]), path), path.start);
            && matched == Declared(m, names)
            && (matched ==>
                  (found <==> forall n | n in names && Free(m.value, n) ::
                   Lookup(old(buf[..]), query, isForm, body, n).Some?))
            && (matched && found ==>
                  && Sourced(old(buf[..]), query, isForm, body, m.value, names, sources, |names|)
                  && DecodedTo(buf[..], old(buf[..]), args[..], sources, |names|)
                  && PathArrives(old(buf[..]), buf[..], route, path, names, args[..])
                  && QueryArrives(old(buf[..]), buf[..], query, m.value, names, args[..])
                  && (isForm ==> FormArrives(old(buf[..]), buf[..], query, body, m.value, names, args[..])))
    ensures !(matched && found) ==> buf[..] == old(buf[..])
  {
    hide *;
    ghost var b := buf[..];
    var has := new bool[|names|];
    LayoutParts(buf.Length, path, query, body);
    matched := PathMatch(buf, route, path, names, args, has);
    found, sources := false, args[..];
    if !matched { return; }
    DeclaredSome(Match(route, Text(b, path), path.start), names);
    ghost var ps := Match(route, Text(b, path), path.start).value;
    found := FindOthers(buf, query, isForm, body, ps, names, args, has);
    sources := args[..];
    if !found { return; }
    SourcesInside(b, route, path, query, isForm, body, names, sources);
    DecodeArguments(buf, args);
    AllFromPath(b, buf[..], route, path, query, isForm, body, names, sources, args[..]);
    AllFromQuery(b, buf[..], query, isForm, body, ps, names, sources, args[..]);
    if isForm {
      AllFromForm(b, buf[..], query, body, ps, names, sources, args[..]);
    }
  }

  /** The lookup loop of the server. */
  method FindOthers(buf: array<char>, query: Slice, isForm: bool, body: Slice, ghost ps: seq<Param>, names: seq<string>,
                    args: array<Slice>, has: array<bool>)
    returns (found: bool)
    requires query.End() <= buf.Length && body.End() <= buf.Length && args.Length == has.Length == |names|
    requires Distinct(names) && (forall n | n in names :: NulFree(n)) && Taken(ps, names, args[..], has[..])
    modifies args
    ensures found <==> forall n | n in names && Free(ps, n) :: Lookup(buf[..], query, isForm, body, n).Some?
    ensures found ==> Sourced(buf[..], query, isForm, body, ps, names, args[..], |names|)
  {
    hide *;
    ghost var b := buf[..];
    ghost var h := has[..];
    ghost var taken := args[..];
    TakenSources(b, query, isForm, body, ps, names, taken, h);
    for i := 0 to |names|
      invariant buf[..] == b && has[..] == h && Sourced(b, query, isForm, body, ps, names, args[..], i)
      invariant forall k | 0 <= k < i && Free(ps, names[k]) :: Lookup(b, query, isForm, body, names[k]).Some?
    {
      assert names[i] in names;
      HasIsFree(ps, names, taken, h, i);
      ghost var before := args[..];
      if !has[i] {
        var ok, value := RequestParameter(buf, query, isForm, body, names[i]);
        if !ok {
          return false;
        }
        args[i] := value;
        SourceFound(b, query, isForm, body, ps, names, before, i, value);
        assert args[..] == before[i := value];
      } else {
        SourceKept(b, query, isForm, body, ps, names, before, i);
      }
    }
    found := true;
  }

  lemma DeclaredSome(r: Option<seq<Param>>, names: seq<string>)
    requires Declared(r, names)
    ensures r.Some?
  {}

  lemma LayoutParts(size: nat, path: Slice, query: Slice, body: Slice)
    requires Layout(size, path, query, body)
    ensures path.End() <= size && query.End() <= size && body.End() <= size
  {}

  lemma TakenSources(b: seq<char>, query: Slice, isForm: bool, body: Slice, ps: seq<Param>, names: seq<string>,
                     args: seq<Slice>, has: seq<bool>)
    requires query.End() <= |b| && body.End() <= |b| && Distinct(names) && Taken(ps, names, args, has)
    ensures Sourced(b, query, isForm, body, ps, names, args, 0)
  {
    hide Lookup;
    forall k | 0 <= k < |names| && !Free(ps, names[k])
      ensures Source(b, query, isForm, body, ps, names[k], args[k])
    {
      HasIsFree(ps, names, args, has, k);
    }
  }

  /** An argument has a value from the path exactly when the route has a parameter of its name. */
  lemma HasIsFree(ps: seq<Param>, names: seq<string>, args: seq<Slice>, has: seq<bool>, k: nat)
    requires Distinct(names) && Taken(ps, names, args, has) && k < |names|
    ensures |has| == |args| == |names| && (has[k] <==> !Free(ps, names[k]))
    ensures (has[k] ==> Param(names[k], args[k]) in ps)
  {
    if !Free(ps, names[k]) {
      var p :| p in ps && p.name == names[k];
      assert Given(p.name, names, has);
      var i :| 0 <= i < |names| && i < |has| && names[i] == p.name && has[i];
      assert i == k;
    }
  }

  lemma SourceFound(b: seq<char>, query: Slice, isForm: bool, body: Slice, ps: seq<Param>, names: seq<string>,
                    slices: seq<Slice>, i: nat, value: Slice)
    requires query.End() <= |b| && body.End() <= |b| && Sourced(b, query, isForm, body, ps, names, slices, i)
    requires i < |names|
    requires Free(ps, names[i]) && Lookup(b, query, isForm, body, names[i]) == Some(value)
    ensures Sourced(b, query, isForm, body, ps, names, slices[i := value], i + 1)
  {
    hide Lookup;
  }

  lemma SourceKept(b: seq<char>, query: Slice, isForm: bool, body: Slice, ps: seq<Param>, names: seq<string>,
                   slices: seq<Slice>, i: nat)
    requires query.End() <= |b| && body.End() <= |b| && Sourced(b, query, isForm, body, ps, names, slices, i)
    requires i < |names|
    requires !Free(ps, names[i])
    ensures Sourced(b, query, isForm, body, ps, names, slices, i + 1)
  {
    hide Lookup, Source;
  }

  lemma SourcesInside(b: seq<char>, route: string, path: Slice, query: Slice, isForm: bool, body: Slice,
                      names: seq<string>, slices: seq<Slice>)
    requires Layout(|b|, path, query, body) && Distinct(names) && Match(route, Text(b, path), path.start).Some?
    requires Sourced(b, query, isForm, body, Match(route, Text(b, path), path.start).value, names, slices, |names|)
    ensures AllApart(slices) && AllInside(slices, |b|)
  {
    hide Match, Source, Apart, Lookup, Free;
    var ps := Match(route, Text(b, path), path.start).value;
    forall i | 0 <= i < |slices| ensures slices[i].End() <= |b| {
      SourceInside(b, route, path, query, isForm, body, names[i], slices[i]);
    }
    forall i, j | 0 <= i < j < |slices| ensures Apart(slices[i], slices[j]) {
      SourcesApart(b, route, path, query, isForm, body, names[i], slices[i], names[j], slices[j]);
    }
  }

  lemma SourceInside(b: seq<char>, route: string, path: Slice, query: Slice, isForm: bool, body: Slice, name: string,
                     s: Slice)
    requires Layout(|b|, path, query, body) && Match(route, Text(b, path), path.start).Some?
    requires Source(b, query, isForm, body, Match(route, Text(b, path), path.start).value, name, s)
    ensures s.End() <= |b|
  {
    hide Match, FindParameter, Text, Lookup;
    ParamsWithin(route, Text(b, path), path.start);
    TextLength(b, path);
    if Param(name, s) !in Match(route, Text(b, path), path.start).value {
      LookupWithin(b, query, isForm, body, name);
    }
  }

  /** An argument whose source holds an encoded text has that text after decoding. */
  lemma ArgumentDecoded(b: seq<char>, b': seq<char>, sources: seq<Slice>, args: seq<Slice>, i: nat, e: string,
                        v: string)
    requires DecodedTo(b', b, args, sources, |args|) && i < |args| && sources[i].End() <= |b|
    requires Text(b, sources[i]) == e && Encodes(e, v)
    ensures ArgumentIs(b', args, i, v)
  {
    hide Decode, Encodes;
    DecodeExactly(e, v);
  }

  /** What a parameter of a query string or form is found as. */
  lemma FoundText(b: seq<char>, part: Slice, pairs: seq<(string, string)>, texts: seq<string>, j: nat)
    requires part.End() <= |b| && Carries(Text(b, part), pairs, texts) && j < |pairs|
    ensures var f := FindParameter(Text(b, part), part.start, pairs[j].0);
            f.Some? && f.value.End() <= |b| && Text(b, f.value) == pairs[j].1
  {
    hide FindParameter, Query, PairsOk, Encodes;
    FoundInQuery(pairs, part.start, j);
    TextLength(b, part);
    SliceOfText(b, part, FindParameter(Query(pairs), part.start, pairs[j].0).value);
  }

  /** A query parameter's way: found, and decoded to the text that was encoded. */
  lemma QueryArgument(b: seq<char>, b': seq<char>, query: Slice, isForm: bool, body: Slice, ps: seq<Param>,
                      names: seq<string>, sources: seq<Slice>, args: seq<Slice>, pairs: seq<(string, string)>,
                      texts: seq<string>, i: nat, j: nat)
    requires query.End() <= |b| && body.End() <= |b|
    requires Sourced(b, query, isForm, body, ps, names, sources, |names|) && DecodedTo(b', b, args, sources, |names|)
    requires Carries(Text(b, query), pairs, texts)
    requires i < |names| && j < |pairs| && names[i] == pairs[j].0 && Free(ps, names[i])
    ensures ArgumentIs(b', args, i, texts[j])
  {
    FoundText(b, query, pairs, texts, j);
    SourceIsLookup(b, query, isForm, body, ps, names, sources, i);
    SourcesCount(b', b, args, sources, |names|);
    CarriesText(Text(b, query), pairs, texts, j);
    LookupFirst(b, query, isForm, body, names[i]);
    hide *;
    ArgumentDecoded(b, b', sources, args, i, pairs[j].1, texts[j]);
  }

  lemma FormArgument(b: seq<char>, b': seq<char>, query: Slice, body: Slice, ps: seq<Param>, names: seq<string>,
                     sources: seq<Slice>, args: seq<Slice>, pairs: seq<(string, string)>, texts: seq<string>, i: nat,
                     j: nat)
    requires query.End() <= |b| && body.End() <= |b|
    requires Sourced(b, query, true, body, ps, names, sources, |names|) && DecodedTo(b', b, args, sources, |names|)
    requires Carries(Text(b, body), pairs, texts)
    requires i < |names| && j < |pairs| && names[i] == pairs[j].0 && Free(ps, names[i])
    requires FindParameter(Text(b, query), query.start, names[i]).None?
    ensures ArgumentIs(b', args, i, texts[j])
  {
    FoundText(b, body, pairs, texts, j);
    SourceIsLookup(b, query, true, body, ps, names, sources, i);
    SourcesCount(b', b, args, sources, |names|);
    CarriesText(Text(b, body), pairs, texts, j);
    LookupFirst(b, query, true, body, names[i]);
    hide *;
    ArgumentDecoded(b, b', sources, args, i, pairs[j].1, texts[j]);
  }

  lemma LookupFirst(b: seq<char>, query: Slice, isForm: bool, body: Slice, name: string)
    requires query.End() <= |b| && body.End() <= |b|
    ensures var q := FindParameter(Text(b, query), query.start, name);
            && (q.Some? ==> Lookup(b, query, isForm, body, name) == q)
            && (q.None? && isForm ==>
                  Lookup(b, query, isForm, body, name) == FindParameter(Text(b, body), body.start, name))
  {
    hide FindParameter;
  }

  lemma CarriesText(t: string, pairs: seq<(string, string)>, texts: seq<string>, j: nat)
    requires Carries(t, pairs, texts) && j < |pairs|
    ensures |texts| == |pairs| && Encodes(pairs[j].1, texts[j])
  {
    hide Encodes, Query, PairsOk;
  }

  lemma SourcesCount(b': seq<char>, b: seq<char>, args: seq<Slice>, sources: seq<Slice>, n: nat)
    requires DecodedTo(b', b, args, sources, n) && |sources| == n
    ensures |args| == n && forall k | 0 <= k < n :: sources[k].End() <= |b|
  {
    hide Decode, Text;
  }

  lemma SourceIsLookup(b: seq<char>, query: Slice, isForm: bool, body: Slice, ps: seq<Param>, names: seq<string>,
                       sources: seq<Slice>, i: nat)
    requires query.End() <= |b| && body.End() <= |b| && Sourced(b, query, isForm, body, ps, names, sources, |names|)
    requires i < |names| && Free(ps, names[i])
    ensures |sources| == |names| && Lookup(b, query, isForm, body, names[i]) == Some(sources[i])
  {
    hide Lookup;
    assert Source(b, query, isForm, body, ps, names[i], sources[i]);
    NotAParam(ps, names[i], sources[i]);
  }

  /** With different names each parameter has the value of its name. */
  lemma ValueOfName(ps: seq<Param>, t: string, offset: nat, pnames: seq<string>, values: seq<string>, j: nat, s: Slice)
    requires Extracted(Some(ps), t, offset, pnames, values) && Distinct(pnames)
    requires j < |pnames| && Param(pnames[j], s) in ps
    ensures offset <= s.start && s.End() <= offset + |t| && t[s.start - offset..s.End() - offset] == values[j]
  {
    var k :| 0 <= k < |ps| && ps[k] == Param(pnames[j], s);
    assert k == j;
  }

  /** An argument that the route gives a value is a parameter of the match. */
  lemma SourceIsParam(b: seq<char>, query: Slice, isForm: bool, body: Slice, ps: seq<Param>, names: seq<string>,
                      sources: seq<Slice>, i: nat, t: string, offset: nat, pnames: seq<string>, values: seq<string>,
                      j: nat)
    requires query.End() <= |b| && body.End() <= |b| && Sourced(b, query, isForm, body, ps, names, sources, |names|)
    requires Extracted(Some(ps), t, offset, pnames, values)
    requires i < |names| && j < |pnames| && names[i] == pnames[j]
    ensures |sources| == |names| && Param(names[i], sources[i]) in ps
  {
    hide Lookup;
    assert Source(b, query, isForm, body, ps, names[i], sources[i]);
    assert ps[j].name == names[i];
    assert ps[j] in ps;
  }

  lemma PathParts(route: string, path: string, values: seq<string>, texts: seq<string>, offset: nat)
    requires PathCarries(route, path, values, texts)
    ensures |values| == |texts| == |ParamNames(route)| && Distinct(ParamNames(route))
    ensures Extracted(Match(route, path, offset), path, offset, ParamNames(route), values)
    ensures forall j | 0 <= j < |values| :: Encodes(values[j], texts[j])
  {
    hide Filled, Encodes, Match, ParamNames, Extracted;
    FilledMatches(route, values, path, offset);
  }

  /** A path parameter's way. */
  lemma PathArgument(b: seq<char>, b': seq<char>, route: string, path: Slice, query: Slice, isForm: bool, body: Slice,
                     names: seq<string>, sources: seq<Slice>, args: seq<Slice>, values: seq<string>, texts: seq<string>,
                     i: nat, j: nat)
    requires path.End() <= |b| && query.End() <= |b| && body.End() <= |b|
    requires Match(route, Text(b, path), path.start).Some?
    requires Sourced(b, query, isForm, body, Match(route, Text(b, path), path.start).value, names, sources, |names|)
    requires DecodedTo(b', b, args, sources, |names|) && PathCarries(route, Text(b, path), values, texts)
    requires i < |names| && j < |texts| && |texts| == |ParamNames(route)| && names[i] == ParamNames(route)[j]
    ensures ArgumentIs(b', args, i, texts[j])
  {
    var t, pnames := Text(b, path), ParamNames(route);
    TextLength(b, path);
    hide Match, Text, ParamNames, DecodedTo, ArgumentIs, PathCarries, Distinct, Extracted, Sourced, Encodes;
    var ps := Match(route, t, path.start).value;
    PathParts(route, t, values, texts, path.start);
    SourceIsParam(b, query, isForm, body, ps, names, sources, i, t, path.start, pnames, values, j);
    ValueOfName(ps, t, path.start, pnames, values, j, sources[i]);
    SliceOfText(b, path, sources[i]);
    SourcesCount(b', b, args, sources, |names|);
    ArgumentDecoded(b, b', sources, args, i, values[j], texts[j]);
  }

  lemma AllFromPath(b: seq<char>, b': seq<char>, route: string, path: Slice, query: Slice, isForm: bool, body: Slice,
                    names: seq<string>, sources: seq<Slice>, args: seq<Slice>)
    requires path.End() <= |b| && query.End() <= |b| && body.End() <= |b|
    requires Match(route, Text(b, path), path.start).Some?
    requires Sourced(b, query, isForm, body, Match(route, Text(b, path), path.start).value, names, sources, |names|)
    requires DecodedTo(b', b, args, sources, |names|)
    ensures PathArrives(b, b', route, path, names, args)
  {
    hide Match, Sourced, DecodedTo, ArgumentIs, Text, Filled, Encodes;
    forall values: seq<string>, texts: seq<string> | PathCarries(route, Text(b, path), values, texts)
      ensures forall i, j | 0 <= i < |names| && 0 <= j < |texts| && names[i] == ParamNames(route)[j] ::
                ArgumentIs(b', args, i, texts[j])
    {
      forall i, j | 0 <= i < |names| && 0 <= j < |texts| && names[i] == ParamNames(route)[j]
        ensures ArgumentIs(b', args, i, texts[j])
      {
        PathArgument(b, b', route, path, query, isForm, body, names, sources, args, values, texts, i, j);
      }
    }
  }

  lemma AllFromQuery(b: seq<char>, b': seq<char>, query: Slice, isForm: bool, body: Slice, ps: seq<Param>,
                     names: seq<string>, sources: seq<Slice>, args: seq<Slice>)
    requires query.End() <= |b| && body.End() <= |b|
    requires Sourced(b, query, isForm, body, ps, names, sources, |names|) && DecodedTo(b', b, args, sources, |names|)
    ensures QueryArrives(b, b', query, ps, names, args)
  {
    hide Sourced, DecodedTo, ArgumentIs, Text, Query, Encodes, Free;
    forall pairs: seq<(string, string)>, texts: seq<string> | Carries(Text(b, query), pairs, texts)
      ensures forall i, j | 0 <= i < |names| && 0 <= j < |texts| && names[i] == pairs[j].0 && Free(ps, names[i]) ::
                ArgumentIs(b', args, i, texts[j])
    {
      forall i, j | 0 <= i < |names| && 0 <= j < |texts| && names[i] == pairs[j].0 && Free(ps, names[i])
        ensures ArgumentIs(b', args, i, texts[j])
      {
        QueryArgument(b, b', query, isForm, body, ps, names, sources, args, pairs, texts, i, j);
      }
    }
  }

  lemma AllFromForm(b: seq<char>, b': seq<char>, query: Slice, body: Slice, ps: seq<Param>, names: seq<string>,
                    sources: seq<Slice>, args: seq<Slice>)
    requires query.End() <= |b| && body.End() <= |b|
    requires Sourced(b, query, true, body, ps, names, sources, |names|) && DecodedTo(b', b, args, sources, |names|)
    ensures FormArrives(b, b', query, body, ps, names, args)
  {
    hide Sourced, DecodedTo, ArgumentIs, Text, Query, Encodes, Free, FindParameter;
    forall pairs: seq<(string, string)>, texts: seq<string> | Carries(Text(b, body), pairs, texts)
      ensures forall i, j | 0 <= i < |names| && 0 <= j < |texts| && names[i] == pairs[j].0 && Free(ps, names[i])
                            && FindParameter(Text(b, query), query.start, names[i]).None? ::
                ArgumentIs(b', args, i, texts[j])
    {
      forall i, j | 0 <= i < |names| && 0 <= j < |texts| && names[i] == pairs[j].0 && Free(ps, names[i])
                    && FindParameter(Text(b, query), query.start, names[i]).None?
        ensures ArgumentIs(b', args, i, texts[j])
      {
        FormArgument(b, b', query, body, ps, names, sources, args, pairs, texts, i, j);
      }
    }
  }

  lemma NotAParam(ps: seq<Param>, name: string, s: Slice)
    requires Free(ps, name)
    ensures Param(name, s) !in ps
  {}

  lemma SliceOfText(b: seq<char>, outer: Slice, s: Slice)
    requires outer.End() <= |b| && outer.start <= s.start && s.End() <= outer.End()
    ensures |Text(b, outer)| == outer.len
    ensures Text(b, s) == Text(b, outer)[s.start - outer.start..s.End() - outer.start]
  {
    var x, y := Text(b, s), Text(b, outer)[s.start - outer.start..s.End() - outer.start];
    assert |x| == |y| && forall k | 0 <= k < |x| :: x[k] == y[k];
  }
}
