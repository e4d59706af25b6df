/** Matching the path of a request with the route of an endpoint, and the parameters that gives. */
module Routes {
  import opened Strs
  import opened StringPools
  import opened UrlDecode
  import opened FormParameters

  // ----- what matching does -----

  datatype Param = Param(name: string, value: Slice)

  /** What a split at a slash leaves. */
  function Rest(s: string): (r: string)
    ensures |r| <= |s| && (s != "" ==> |r| < |s|)
  {
    var k := FirstAt(s, '/');
    if k < |s| then s[k + 1..] else ""
  }

  /**
   The loop of mugshot_path_match, for a path that stands at `offset` of the buffer: the parameters in
   order. Equal characters are passed over first, colons among them.
   */
  function Match(route: string, path: string, offset: nat): Option<seq<Param>>
    decreases |route|
  {
    if route == "" || path == "" then if route == "" && path == "" then Some([]) else None
    else if path[0] == route[0] then Match(route[1..], path[1..], offset + 1)
    else if route[0] == ':' then
      var m := FirstAt(path, '/');
      if m == 0 then None
      else
        match Match(Rest(route), Rest(path), offset + m + 1)
        case None => None
        case Some(ps) => Some([Param(Name(route), Slice(offset, m))] + ps)
    else None
  }

  /** Where the parameter that a route starts with ends. */
  function Cut(route: string): (k: nat)
    requires route != "" && route[0] == ':'
    ensures 1 <= k <= |route|
  {
    FirstAt(route, '/')
  }

  function Name(route: string): string
    requires route != "" && route[0] == ':'
  {
    route[1..Cut(route)]
  }

  // ----- filling a route -----

  function ParamNames(route: string): seq<string>
    decreases |route|
  {
    if route == "" then []
    else if route[0] == ':' then [Name(route)] + ParamNames(Later(route))
    else ParamNames(route[1..])
  }

  /** A route after the parameter it starts with. */
  function Later(route: string): (r: string)
    requires route != "" && route[0] == ':'
    ensures |r| < |route|
  {
    route[Cut(route)..]
  }

  /** The route with its parameters replaced by values. */
  function Fill(route: string, values: seq<string>): string
    requires |values| == |ParamNames(route)|
    decreases |route|
  {
    if route == "" then ""
    else if route[0] == ':' then values[0] + Fill(Later(route), values[1..])
    else [route[0]] + Fill(route[1..], values)
  }

  /** Values that a path segment can hold. */
  predicate Segments(values: seq<string>) {
    forall v | v in values :: v != "" && '/' !in v
  }

  predicate StartsWithColon(v: string) {
    v != "" && v[0] == ':'
  }

  /** The parameters that were found are these values, in a path at `offset`. */
  predicate Extracted(r: Option<seq<Param>>, path: string, offset: nat, names: seq<string>, values: seq<string>) {
    && r.Some? && |r.value| == |values| == |names|
    && forall i | 0 <= i < |values| ::
         && r.value[i].name == names[i]
         && offset <= r.value[i].value.start && r.value[i].value.End() <= offset + |path|
         && path[r.value[i].value.start - offset..r.value[i].value.End() - offset] == values[i]
  }

  lemma NameSplit(route: string)
    requires route != "" && route[0] == ':'
    ensures route == [':'] + Name(route) + Later(route)
    ensures Later(route) == "" ==> Rest(route) == ""
    ensures Later(route) != "" ==> Later(route)[0] == '/' && Rest(route) == Later(route)[1..]
  {
    AtSlash(route);
    assert Cut(route) == FirstAt(route, '/');
    hide FirstAt, Cut;
    var k := Cut(route);
    assert route[..k] == [':'] + route[1..k] && route == route[..k] + route[k..];
    if k < |route| {
      assert route[k..][1..] == route[k + 1..];
    }
  }

  lemma {:induction false} AtSlash(s: string)
    ensures FirstAt(s, '/') < |s| ==> s[FirstAt(s, '/')] == '/'
  {
    if s != "" && s[0] != '/' {
      AtSlash(s[1..]);
    }
  }

  /** After a slash, the names are those after the slash. */
  lemma NamesAfterSlash(route: string)
    requires route != "" && route[0] == '/'
    ensures ParamNames(route) == ParamNames(route[1..])
    ensures forall values :: |values| == |ParamNames(route)| ==> Fill(route, values) == "/" + Fill(route[1..], values)
  {}

  lemma NamesFirst(route: string)
    requires route != "" && route[0] == ':'
    ensures ParamNames(route) == [Name(route)] + ParamNames(Later(route))
    ensures ParamNames(Later(route)) == ParamNames(Rest(route))
    ensures forall values :: |values| == |ParamNames(route)| ==>
              Fill(route, values) == values[0] + Fill(Later(route), values[1..])
  {
    NameSplit(route);
    if Later(route) != "" {
      NamesAfterSlash(Later(route));
    }
    hide FirstAt, Name, Later, Rest;
  }

  // ----- slices move with their path -----

  lemma ExtractedLater(r: Option<seq<Param>>, path: string, n: nat, offset: nat, names: seq<string>,
                       values: seq<string>)
    requires n <= |path| && Extracted(r, path[n..], offset + n, names, values)
    ensures Extracted(r, path, offset, names, values)
  {
    forall i | 0 <= i < |values|
      ensures offset <= r.value[i].value.start && r.value[i].value.End() <= offset + |path|
      ensures path[r.value[i].value.start - offset..r.value[i].value.End() - offset] == values[i]
    {
      var s := r.value[i].value;
      assert path[n..][s.start - (offset + n)..s.End() - (offset + n)] == path[s.start - offset..s.End() - offset];
    }
  }

  lemma ExtractedFirst(name: string, m: nat, rest: seq<Param>, path: string, offset: nat, names: seq<string>,
                       values: seq<string>)
    requires m <= |path| && Extracted(Some(rest), path, offset, names, values)
    ensures Extracted(Some([Param(name, Slice(offset, m))] + rest), path, offset, [name] + names, [path[..m]] + values)
  {
    var ps, ns, vs := [Param(name, Slice(offset, m))] + rest, [name] + names, [path[..m]] + values;
    forall i | 0 <= i < |vs|
      ensures ps[i].name == ns[i] && offset <= ps[i].value.start && ps[i].value.End() <= offset + |path|
      ensures path[ps[i].value.start - offset..ps[i].value.End() - offset] == vs[i]
    {
      if i > 0 {
        assert ps[i] == rest[i - 1] && ns[i] == names[i - 1] && vs[i] == values[i - 1];
      }
    }
  }

  /** The last parameter of the route ends it. */
  predicate EndsInParam(route: string)
    decreases |route|
  {
    if route == "" then false
    else if route[0] == ':' then Later(route) == "" || EndsInParam(Later(route))
    else EndsInParam(route[1..])
  }

  /** The last parameter of the route is followed by one slash, which ends it. */
  predicate EndsInParamSlash(route: string)
    decreases |route|
  {
    if route == "" then false
    else if route[0] == ':' then Later(route) == "/" || EndsInParamSlash(Later(route))
    else EndsInParamSlash(route[1..])
  }

  /** The path is the filled route, up to one slash after the last parameter, in the path or in the route. */
  predicate Filled(route: string, values: seq<string>, path: string)
    requires |values| == |ParamNames(route)|
  {
    || path == Fill(route, values)
    || (EndsInParam(route) && path == Fill(route, values) + "/")
    || (EndsInParamSlash(route) && path + "/" == Fill(route, values))
  }

  // ----- a filled route matches -----

  lemma {:induction false} FilledMatches(route: string, values: seq<string>, path: string, offset: nat)
    requires |values| == |ParamNames(route)| && Segments(values) && forall v | v in values :: !StartsWithColon(v)
    requires Filled(route, values, path)
    ensures Extracted(Match(route, path, offset), path, offset, ParamNames(route), values)
    decreases |route|
  {
    if route == "" {
      assert path == "";
    } else if route[0] == ':' {
      ParamMatches(route, values, path, offset);
    } else {
      FilledChar(route, values, path);
      hide *;
      MatchChar(route, path, offset);
      FilledMatches(route[1..], values, path[1..], offset + 1);
      ExtractedLater(Match(route[1..], path[1..], offset + 1), path, 1, offset, ParamNames(route), values);
    }
  }

  lemma FilledChar(route: string, values: seq<string>, path: string)
    requires route != "" && route[0] != ':' && |values| == |ParamNames(route)| && Segments(values)
    requires Filled(route, values, path)
    ensures ParamNames(route) == ParamNames(route[1..])
    ensures path != "" && path[0] == route[0] && Filled(route[1..], values, path[1..])
  {
    hide Segments;
    var rest := Fill(route[1..], values);
    if EndsInParamSlash(route) && path + "/" == Fill(route, values) {
      TwoAtLeast(route[1..], values);
      assert (path + "/")[1..] == rest && |path| >= 2;
      assert path[1..] + "/" == (path + "/")[1..];
    } else if path == Fill(route, values) {
      assert path[1..] == rest;
    } else {
      assert path[1..] == rest + "/";
    }
  }

  /** A route with a last parameter and a slash after it is filled with two characters at least. */
  lemma {:induction false} TwoAtLeast(route: string, values: seq<string>)
    requires |values| == |ParamNames(route)| && Segments(values) && EndsInParamSlash(route)
    ensures |Fill(route, values)| >= 2
    decreases |route|
  {
    hide Cut, Name, Segments;
    if route[0] == ':' {
      SegmentsRest(values);
      if Later(route) == "/" {
        assert Fill("/", values[1..]) == "/" + Fill("/"[1..], values[1..]);
      } else {
        TwoAtLeast(Later(route), values[1..]);
      }
    } else {
      TwoAtLeast(route[1..], values);
    }
  }

  lemma SegmentsRest(values: seq<string>)
    requires Segments(values) && values != []
    ensures Segments(values[1..]) && values[0] != "" && '/' !in values[0]
    ensures forall v | v in values[1..] :: v in values
    ensures values[0] in values
  {
    assert values[0] in values;
    assert forall v | v in values[1..] :: v in values;
  }

  /** A value up to the slash after it, or to the end of the path. */
  lemma ValueSplit(value: string, rest: string)
    requires '/' !in value && (rest != "" ==> rest[0] == '/')
    ensures FirstAt(value + rest, '/') == |value| && (value + rest)[..|value|] == value
    ensures Rest(value + rest) == if rest == "" then "" else rest[1..]
  {
    FirstAfter(value, rest, '/');
    hide FirstAt;
    assert rest != "" ==> (value + rest)[|value| + 1..] == rest[1..];
  }

  lemma ParamMatches(route: string, values: seq<string>, path: string, offset: nat)
    requires route != "" && route[0] == ':'
    requires |values| == |ParamNames(route)| && Segments(values) && forall v | v in values :: !StartsWithColon(v)
    requires Filled(route, values, path)
    ensures Extracted(Match(route, path, offset), path, offset, ParamNames(route), values)
    decreases |route|, 0
  {
    hide *;
    LaterFill(route, values);
    SegmentsRest(values);
    FirstNotColon(values);
    NamesFirst(route);
    FilledParam(route, values, path);
    FilledMatches(Rest(route), values[1..], Rest(path), offset + |values[0]| + 1);
    MatchParam(route, path, offset);
    Assembled(Match(Rest(route), Rest(path), offset + |values[0]| + 1), Name(route), path, Rest(path), offset,
              ParamNames(Rest(route)), ParamNames(route), values);
  }

  /** The first parameter put before those of the rest of the path. */
  lemma Assembled(r: Option<seq<Param>>, name: string, path: string, rest: string, offset: nat, later: seq<string>,
                  names: seq<string>, values: seq<string>)
    requires |values| >= 1 && |path| >= |values[0]| && path[..|values[0]|] == values[0] && names == [name] + later
    requires Extracted(r, rest, offset + |values[0]| + 1, later, values[1..])
    requires if |path| == |values[0]| then later == [] else rest == path[|values[0]| + 1..]
    ensures r.Some? && Extracted(Some([Param(name, Slice(offset, |values[0]|))] + r.value), path, offset, names, values)
  {
    hide *;
    var m := |values[0]|;
    ExtractedSome(r, rest, offset + m + 1, later, values[1..]);
    if |path| == m {
      NothingExtracted(r, rest, offset + m + 1, path, offset, later, values[1..]);
    } else {
      ExtractedLater(r, path, m + 1, offset, later, values[1..]);
    }
    ExtractedFirst(name, m, r.value, path, offset, later, values[1..]);
    assert [values[0]] + values[1..] == values;
  }

  lemma FirstNotColon(values: seq<string>)
    requires values != [] && values[0] != "" && forall v | v in values :: !StartsWithColon(v)
    ensures values[0][0] != ':'
  {
    assert values[0] in values;
  }

  /** The path, split as the match splits it: a value, and what fills the rest of the route. */
  lemma FilledParam(route: string, values: seq<string>, path: string)
    requires route != "" && route[0] == ':' && |values| == |ParamNames(route)| && Segments(values)
    requires Filled(route, values, path)
    requires |values| >= 1 && |values[1..]| == |ParamNames(Rest(route))| && values[0] != "" && values[0][0] != ':'
    ensures var m := |values[0]|;
            && |path| >= m && path[0] != ':' && FirstAt(path, '/') == m && path[..m] == values[0]
            && Filled(Rest(route), values[1..], Rest(path))
            && (if |path| == m then ParamNames(Rest(route)) == [] else Rest(path) == path[m + 1..])
  {
    var t := FilledTail(route, values, path);
    SegmentsRest(values);
    hide *;
    ValueSplit(values[0], t);
    assert t != "" ==> (values[0] + t)[|values[0]| + 1..] == t[1..];
    assert (values[0] + t)[0] == values[0][0];
  }

  /** What follows the first value in the path. */
  lemma FilledTail(route: string, values: seq<string>, path: string) returns (t: string)
    requires route != "" && route[0] == ':' && |values| == |ParamNames(route)| && Segments(values)
    requires Filled(route, values, path)
    requires |values| >= 1 && |values[1..]| == |ParamNames(Rest(route))|
    ensures path == values[0] + t && (t != "" ==> t[0] == '/')
    ensures Filled(Rest(route), values[1..], if t == "" then "" else t[1..])
    ensures t == "" ==> ParamNames(Rest(route)) == []
  {
    hide *;
    LaterFill(route, values);
    EndsLater(route);
    SegmentsRest(values);
    FilledOut(route, values, path);
    var later, rest := Fill(Later(route), values[1..]), Fill(Rest(route), values[1..]);
    LaterSlash(route, values);
    if path == values[0] + later {
      t := later;
    } else if EndsInParam(route) && path == values[0] + later + "/" {
      t := later + "/";
      assert path == values[0] + t;
    } else if Later(route) == "/" {
      t := "";
      SlashCut(values[0], "/", path);
    } else {
      TwoAtLeast(Rest(route), values[1..]);
      SlashCut(values[0], later, path);
      t := later[..|later| - 1];
    }
    FilledIn(Rest(route), values[1..], if t == "" then "" else t[1..]);
  }

  lemma FilledOut(route: string, values: seq<string>, path: string)
    requires |values| == |ParamNames(route)| && Filled(route, values, path)
    ensures || path == Fill(route, values)
            || (EndsInParam(route) && path == Fill(route, values) + "/")
            || (EndsInParamSlash(route) && path + "/" == Fill(route, values))
  {
    hide Fill, ParamNames;
  }

  lemma FilledIn(route: string, values: seq<string>, path: string)
    requires |values| == |ParamNames(route)|
    requires || path == Fill(route, values)
             || (EndsInParam(route) && path == Fill(route, values) + "/")
             || (EndsInParamSlash(route) && path + "/" == Fill(route, values))
    ensures Filled(route, values, path)
  {
    hide Fill, ParamNames;
  }

  /** Taking the slash off the end. */
  lemma SlashCut(value: string, later: string, path: string)
    requires path + "/" == value + later && later != "" && later[0] == '/'
    ensures path == value + later[..|later| - 1]
    ensures |later| >= 2 ==> later[..|later| - 1][1..] + "/" == later[1..]
  {
    assert path == (path + "/")[..|path|] == (value + later)[..|value| + |later| - 1] == value + later[..|later| - 1];
    assert later[|later| - 1] == (value + later)[|path|] == (path + "/")[|path|] == '/';
  }

  lemma LaterSlash(route: string, values: seq<string>)
    requires route != "" && route[0] == ':' && |values| == |ParamNames(route)| && |values| >= 1
    requires |values[1..]| == |ParamNames(Later(route))| == |ParamNames(Rest(route))|
    ensures Later(route) == "/" ==>
              Fill(Later(route), values[1..]) == "/" && Rest(route) == "" && ParamNames(Rest(route)) == []
                                    && Fill(Rest(route), values[1..]) == ""
    ensures Later(route) == "" ==> Fill(Later(route), values[1..]) == "" && Rest(route) == ""
    ensures Later(route) != "" ==> Fill(Later(route), values[1..]) != "" && Later(route)[0] == '/'
  {
    NameSplit(route);
    if Later(route) != "" {
      NamesAfterSlash(Later(route));
    }
    hide FirstAt, Cut, Name, Later, Rest;
  }

  /** How the end of a route shows after its first parameter. */
  lemma EndsLater(route: string)
    requires route != "" && route[0] == ':'
    ensures EndsInParam(route) <==> Later(route) == "" || EndsInParam(Rest(route))
    ensures EndsInParamSlash(route) <==> Later(route) == "/" || EndsInParamSlash(Rest(route))
  {
    NameSplit(route);
    hide FirstAt, Cut, Name, Later, Rest;
    if Later(route) != "" {
      var l := Later(route);
      assert l[0] == '/';
      assert EndsInParam(l) == EndsInParam(l[1..]) && EndsInParamSlash(l) == EndsInParamSlash(l[1..]);
    }
  }

  /** What follows the value in a filled route. */
  lemma LaterFill(route: string, values: seq<string>)
    requires route != "" && route[0] == ':' && |values| == |ParamNames(route)|
    ensures |values| >= 1 && |values[1..]| == |ParamNames(Later(route))| == |ParamNames(Rest(route))|
    ensures var later := Fill(Later(route), values[1..]);
            && Fill(route, values) == values[0] + later
            && (later == "" ==> Fill(Rest(route), values[1..]) == "" && ParamNames(Rest(route)) == [])
            && (later != "" ==> later[0] == '/' && Fill(Rest(route), values[1..]) == later[1..])
  {
    NamesFirst(route);
    NameSplit(route);
    if Later(route) != "" {
      NamesAfterSlash(Later(route));
    }
    hide FirstAt, Name, Later, Rest;
  }

  lemma MatchParam(route: string, path: string, offset: nat)
    requires route != "" && route[0] == ':' && path != "" && path[0] != ':'
    ensures var m := FirstAt(path, '/');
            Match(route, path, offset) ==
            if m == 0 then None
            else
              match Match(Rest(route), Rest(path), offset + m + 1)
              case None => None
              case Some(ps) => Some([Param(Name(route), Slice(offset, m))] + ps)
  {
    hide FirstAt, Name, Rest;
  }

  lemma ExtractedSome(r: Option<seq<Param>>, path: string, offset: nat, names: seq<string>, values: seq<string>)
    requires Extracted(r, path, offset, names, values)
    ensures r.Some? && |values| == |names|
  {}

  lemma NothingExtracted(r: Option<seq<Param>>, p: string, o: nat, path: string, offset: nat, names: seq<string>,
                         values: seq<string>)
    requires values == [] && Extracted(r, p, o, names, values)
    ensures Extracted(r, path, offset, names, values)
  {}

  // ----- exactly when it does -----

  /** Names without colons, as the names of arguments are. */
  predicate SimpleNames(route: string) {
    forall n | n in ParamNames(route) :: ':' !in n
  }

  lemma {:induction false} NoColonNoNames(s: string, rest: string)
    requires ':' !in s
    ensures ParamNames(s + rest) == ParamNames(rest)
  {
    if s == "" {
      assert s + rest == rest;
    } else {
      assert (s + rest)[1..] == s[1..] + rest;
      NoColonNoNames(s[1..], rest);
    }
  }

  lemma SimpleParts(route: string)
    requires route != "" && SimpleNames(route)
    ensures route[0] != ':' ==> ParamNames(route) == ParamNames(route[1..]) && SimpleNames(route[1..])
    ensures route[0] == ':' ==> ':' !in Name(route) && SimpleNames(Later(route)) && SimpleNames(Rest(route))
    ensures route[0] == ':' ==> |ParamNames(route)| == 1 + |ParamNames(Later(route))| == 1 + |ParamNames(Rest(route))|
  {
    if route[0] == ':' {
      NamesFirst(route);
      hide ParamNames, Name, Later, Rest;
      assert Name(route) == ParamNames(route)[0];
      forall n | n in ParamNames(Later(route)) ensures ':' !in n {
        assert n in ParamNames(route);
      }
    }
  }

  /** Passing over the colon of a parameter as a character leaves only the later names. */
  lemma ColonPassed(route: string)
    requires route != "" && route[0] == ':' && SimpleNames(route)
    ensures ParamNames(route[1..]) == ParamNames(Later(route)) && SimpleNames(route[1..])
  {
    hide *;
    SimpleParts(route);
    NameSplit(route);
    Tail(route, Name(route), Later(route));
    NoColonNoNames(Name(route), Later(route));
    SameNames(route[1..], Later(route));
  }

  lemma Tail(route: string, name: string, later: string)
    requires route == [':'] + name + later
    ensures route != "" && route[1..] == name + later
  {}

  lemma SameNames(a: string, b: string)
    requires ParamNames(a) == ParamNames(b) && SimpleNames(b)
    ensures SimpleNames(a)
  {
    hide ParamNames;
  }

  lemma MatchChar(route: string, path: string, offset: nat)
    requires route != "" && path != "" && route[0] == path[0]
    ensures Match(route, path, offset) == Match(route[1..], path[1..], offset + 1)
  {}

  lemma MatchEnds(route: string, path: string, offset: nat)
    requires Match(route, path, offset).Some?
    ensures (route == "" || path == "") ==> Match(route, path, offset) == Some([])
    ensures route != "" && path != "" ==> route[0] == path[0] || route[0] == ':'
  {}

  /** There are never more parameters found than the route has. */
  lemma {:induction false} MatchCount(route: string, path: string, offset: nat)
    requires SimpleNames(route) && Match(route, path, offset).Some?
    ensures |Match(route, path, offset).value| <= |ParamNames(route)|
    decreases |route|
  {
    hide *;
    MatchEnds(route, path, offset);
    if route != "" && path != "" {
      SimpleParts(route);
      if route[0] == path[0] {
        MatchChar(route, path, offset);
        if route[0] == ':' { ColonPassed(route); }
        MatchCount(route[1..], path[1..], offset + 1);
      } else {
        MatchParam(route, path, offset);
        MatchCount(Rest(route), Rest(path), offset + FirstAt(path, '/') + 1);
      }
    }
  }

  /** A value that begins with a colon is not extracted: the colon is passed over as a character. */
  lemma {:induction false} ColonLost(route: string, values: seq<string>, offset: nat)
    requires SimpleNames(route) && |values| == |ParamNames(route)| && Segments(values)
    requires exists v :: v in values && StartsWithColon(v)
    ensures var r := Match(route, Fill(route, values), offset); r.Some? ==> |r.value| < |values|
    decreases |route|
  {
    hide *;
    var path := Fill(route, values);
    if Match(route, path, offset).Some? {
      LostNotEmpty(route, values);
      if route[0] == ':' {
        LaterFill(route, values);
        SimpleParts(route);
        SegmentsRest(values);
        ColonFirst(route, values);
        if StartsWithColon(values[0]) {
          ColonPassed(route);
          MatchChar(route, path, offset);
          MatchCount(route[1..], path[1..], offset + 1);
        } else {
          LostLater(route, values);
          MatchParam(route, path, offset);
          ColonLost(Rest(route), values[1..], offset + FirstAt(path, '/') + 1);
        }
      } else {
        SimpleParts(route);
        FillChar(route, values);
        MatchChar(route, path, offset);
        ColonLost(route[1..], values, offset + 1);
      }
    }
  }

  lemma LostNotEmpty(route: string, values: seq<string>)
    requires |values| == |ParamNames(route)| && exists v :: v in values && StartsWithColon(v)
    ensures route != ""
  {}

  lemma ColonFirst(route: string, values: seq<string>)
    requires |values| >= 1 && route != "" && route[0] == ':' && |values| == |ParamNames(route)|
    requires |values[1..]| == |ParamNames(Later(route))|
    requires Fill(route, values) == values[0] + Fill(Later(route), values[1..])
    ensures StartsWithColon(values[0]) ==> Fill(route, values) != "" && Fill(route, values)[0] == route[0]
  {
    hide Fill, ParamNames, Later;
  }

  lemma FillChar(route: string, values: seq<string>)
    requires route != "" && route[0] != ':' && |values| == |ParamNames(route)|
    ensures |values| == |ParamNames(route[1..])|
    ensures Fill(route, values) != "" && Fill(route, values)[0] == route[0]
    ensures Fill(route, values)[1..] == Fill(route[1..], values)
  {}

  lemma LostLater(route: string, values: seq<string>)
    requires route != "" && route[0] == ':' && |values| == |ParamNames(route)| && |values| >= 1 && Segments(values)
    requires |values[1..]| == |ParamNames(Rest(route))| && values[0] != "" && !StartsWithColon(values[0])
    requires exists v :: v in values && StartsWithColon(v)
    ensures var path := Fill(route, values);
            path != "" && path[0] != ':' && Rest(path) == Fill(Rest(route), values[1..])
    ensures exists v :: v in values[1..] && StartsWithColon(v)
  {
    hide FirstAt, Name, Rest, Later;
    LaterFill(route, values);
    var later := Fill(Later(route), values[1..]);
    assert values[0] in values;
    ValueSplit(values[0], later);
    assert values == [values[0]] + values[1..];
  }

  /**
   Matching inverts filling: a route filled with values, not empty and without slashes, matches and gives
   back exactly these values under the route's names if and only if no value begins with a colon.
   */
  lemma MatchInvertsFill(route: string, values: seq<string>, offset: nat)
    requires SimpleNames(route) && |values| == |ParamNames(route)| && Segments(values)
    ensures Extracted(Match(route, Fill(route, values), offset), Fill(route, values), offset, ParamNames(route), values)
            <==> forall v | v in values :: !StartsWithColon(v)
  {
    if forall v | v in values :: !StartsWithColon(v) {
      FilledMatches(route, values, Fill(route, values), offset);
    } else {
      ColonLost(route, values, offset);
    }
    hide Match, Fill, ParamNames, SimpleNames;
  }

  /** A path that is the text of the route matches, without any parameter being found. */
  lemma {:induction false} RouteMatchesItself(route: string, offset: nat)
    ensures Match(route, route, offset) == Some([])
  {
    if route != "" {
      RouteMatchesItself(route[1..], offset + 1);
    }
  }

  /** So the path "/:id" matches the route "/:id", and the parameter has no value. */
  lemma ColonPath(offset: nat)
    ensures ParamNames("/:id") == ["id"] && Fill("/:id", [":id"]) == "/:id"
    ensures Match("/:id", "/:id", offset) == Some([])
  {
    RouteMatchesItself("/:id", offset);
    var route := ":id";
    assert "/:id"[1..] == route && route[1..] == "id" && "id"[1..] == "d" && "d"[1..] == "";
    assert FirstAt(route, '/') == 3 by { assert FirstAt("d", '/') == 1; assert FirstAt("id", '/') == 2; }
    assert Cut(route) == 3 && Later(route) == "" && Name(route) == "id";
    assert ParamNames(route) == ["id"];
    assert Fill(route, [":id"]) == ":id" by { assert [":id"][1..] == []; }
  }

  // ----- the converse, for paths without colons -----

  /** A match of a path without colons comes from values that fill the route. */
  lemma {:induction false} MatchIsFilled(route: string, path: string, offset: nat) returns (values: seq<string>)
    requires ':' !in path && Match(route, path, offset).Some?
    ensures |values| == |ParamNames(route)| && Segments(values) && (forall v | v in values :: !StartsWithColon(v))
    ensures Filled(route, values, path)
    decreases |route|
  {
    hide *;
    MatchEnds(route, path, offset);
    if route == "" || path == "" {
      NoMatch(route, path, offset);
      values := [];
      EmptyFilled();
    } else if route[0] == path[0] {
      MatchChar(route, path, offset);
      values := MatchIsFilled(route[1..], path[1..], offset + 1);
      CharFilled(route, values, path);
    } else {
      MatchParam(route, path, offset);
      AtSlash(path);
      var m := FirstAt(path, '/');
      assert ':' !in Rest(path) by { RestPart(path); }
      var later := MatchIsFilled(Rest(route), Rest(path), offset + m + 1);
      values := [path[..m]] + later;
      assert values[0] == path[..m] && values[1..] == later;
      BeforeSlash(path);
      ParamFilled(route, values, path, offset + m + 1);
      SegmentsFirst(path[..m], later);
    }
  }

  lemma NoMatch(route: string, path: string, offset: nat)
    requires Match(route, path, offset).Some? && (route == "" || path == "")
    ensures route == "" && path == ""
  {}

  lemma EmptyFilled()
    ensures ParamNames("") == [] && Segments([]) && Filled("", [], "")
  {}

  lemma CharFilled(route: string, values: seq<string>, path: string)
    requires route != "" && path != "" && route[0] == path[0] && route[0] != ':'
    requires |values| == |ParamNames(route[1..])| && Filled(route[1..], values, path[1..])
    ensures |values| == |ParamNames(route)| && Filled(route, values, path)
  {
    assert path == [path[0]] + path[1..];
    assert path + "/" == [path[0]] + (path[1..] + "/");
  }

  lemma RestPart(path: string)
    ensures forall c | c in Rest(path) :: c in path
  {
    hide FirstAt;
  }

  lemma {:induction false} BeforeSlash(path: string)
    ensures '/' !in path[..FirstAt(path, '/')]
  {
    if path != "" && path[0] != '/' {
      BeforeSlash(path[1..]);
      assert path[..FirstAt(path, '/')] == [path[0]] + path[1..][..FirstAt(path[1..], '/')];
    }
  }

  lemma SegmentsFirst(value: string, later: seq<string>)
    requires value != "" && '/' !in value && value[0] != ':'
    requires Segments(later) && forall v | v in later :: !StartsWithColon(v)
    ensures Segments([value] + later) && forall v | v in [value] + later :: !StartsWithColon(v)
  {}

  lemma ParamFilled(route: string, values: seq<string>, path: string, o: nat)
    requires route != "" && route[0] == ':' && path != "" && FirstAt(path, '/') > 0
    requires Match(Rest(route), Rest(path), o).Some?
    requires FirstAt(path, '/') < |path| ==> path[FirstAt(path, '/')] == '/'
    requires |values| == |ParamNames(Rest(route))| + 1 && values[0] == path[..FirstAt(path, '/')]
    requires Filled(Rest(route), values[1..], Rest(path))
    ensures |values| == |ParamNames(route)| && Filled(route, values, path)
  {
    hide *;
    NamesFirst(route);
    LaterFill(route, values);
    LaterSlash(route, values);
    EndsLater(route);
    PathSplit(path);
    if FirstAt(path, '/') == |path| || Later(route) == "" {
      EmptyRest(route, path, o);
      SlashOnly(route);
      FilledEnd(route, values, path);
    } else {
      SlashRest(route, values);
      FilledMiddle(route, values, path);
    }
  }

  lemma SlashRest(route: string, values: seq<string>)
    requires route != "" && route[0] == ':' && |values| == |ParamNames(route)| && |values| >= 1
    requires |values[1..]| == |ParamNames(Later(route))| == |ParamNames(Rest(route))|
    requires Later(route) != "" && Fill(route, values) == values[0] + Fill(Later(route), values[1..])
    ensures Fill(route, values) == values[0] + ("/" + Fill(Rest(route), values[1..]))
  {
    NameSplit(route);
    NamesAfterSlash(Later(route));
    hide FirstAt, Cut, Name, Later, Rest;
  }

  lemma FilledEnd(route: string, values: seq<string>, path: string)
    requires |values| == |ParamNames(route)| && |values| >= 1 && route != "" && route[0] == ':'
    requires Later(route) == "" || Later(route) == "/"
    requires path == values[0] || (path == values[0] + "/" && Later(route) == "")
              || (path == values[0] + "/" && Later(route) == "/")
    requires Fill(route, values) == values[0] + Later(route)
    requires Later(route) == "" ==> EndsInParam(route)
    requires Later(route) == "/" ==> EndsInParamSlash(route)
    ensures Filled(route, values, path)
  {
    hide *;
    assert values[0] + "" == values[0];
    FilledIn(route, values, path);
  }

  lemma FilledMiddle(route: string, values: seq<string>, path: string)
    requires |values| == |ParamNames(route)| && |values| >= 1 && |values[1..]| == |ParamNames(Rest(route))|
    requires path == values[0] + "/" + Rest(path)
    requires Fill(route, values) == values[0] + ("/" + Fill(Rest(route), values[1..]))
    requires Filled(Rest(route), values[1..], Rest(path))
    requires EndsInParam(Rest(route)) ==> EndsInParam(route)
    requires EndsInParamSlash(Rest(route)) ==> EndsInParamSlash(route)
    ensures Filled(route, values, path)
  {
    hide *;
    FilledOut(Rest(route), values[1..], Rest(path));
    Slashes(values[0], Fill(Rest(route), values[1..]), Rest(path));
    FilledIn(route, values, path);
  }

  lemma PathSplit(path: string)
    requires path != "" && (FirstAt(path, '/') < |path| ==> path[FirstAt(path, '/')] == '/')
    ensures var m := FirstAt(path, '/');
            && (m == |path| ==> path == path[..m] && Rest(path) == "")
            && (m < |path| ==> path == path[..m] + "/" + Rest(path))
  {
    hide FirstAt;
    SlashAt(path, FirstAt(path, '/'));
    hide *;
  }

  lemma SlashAt(path: string, m: nat)
    requires m <= |path| && (m < |path| ==> path[m] == '/')
    ensures m < |path| ==> path == path[..m] + "/" + path[m + 1..]
    ensures m == |path| ==> path == path[..m]
  {}

  lemma SlashOnly(route: string)
    requires route != "" && route[0] == ':' && Rest(route) == ""
    ensures Later(route) == "" || Later(route) == "/"
  {
    NameSplit(route);
    hide FirstAt, Cut, Name, Later, Rest;
    assert Later(route) != "" ==> Later(route) == "/" + Later(route)[1..];
  }

  lemma Slashes(value: string, a: string, b: string)
    ensures value + ("/" + a) + "/" == value + "/" + (a + "/")
    ensures value + "/" + b + "/" == value + "/" + (b + "/")
    ensures value + ("/" + a) == value + "/" + a
  {}

  lemma EmptyRest(route: string, path: string, o: nat)
    requires Match(Rest(route), Rest(path), o).Some? && (Rest(route) == "" || Rest(path) == "")
    ensures Rest(route) == "" && Rest(path) == ""
  {
    NoMatch(Rest(route), Rest(path), o);
  }

  /**
   For a path without colons: it matches if and only if it is the route filled with values, up to one slash
   after the last parameter.
   */
  lemma MatchExactly(route: string, path: string, offset: nat)
    requires ':' !in path
    ensures Match(route, path, offset).Some? <==>
            exists values :: |values| == |ParamNames(route)| && Segments(values) && Filled(route, values, path)
  {
    hide Match, ParamNames;
    if Match(route, path, offset).Some? {
      var values := MatchIsFilled(route, path, offset);
    }
    forall values | |values| == |ParamNames(route)| && Segments(values) && Filled(route, values, path)
      ensures Match(route, path, offset).Some?
    {
      ValuesInPath(route, values, path);
      FilledMatches(route, values, path, offset);
      ExtractedSome(Match(route, path, offset), path, offset, ParamNames(route), values);
    }
    hide *;
  }

  /** The values are parts of the path, so no value has a colon if the path has none. */
  lemma {:induction false} ValuesInPath(route: string, values: seq<string>, path: string)
    requires |values| == |ParamNames(route)| && Segments(values) && Filled(route, values, path) && ':' !in path
    ensures forall v | v in values :: !StartsWithColon(v)
  {
    assert ':' !in Fill(route, values) by {
      if path == Fill(route, values) {
      } else if path == Fill(route, values) + "/" {
        assert forall c | c in Fill(route, values) :: c in path;
      } else {
        assert forall c | c in Fill(route, values) :: c in path + "/";
      }
    }
    ValuesInFill(route, values);
  }

  lemma {:induction false} ValuesInFill(route: string, values: seq<string>)
    requires |values| == |ParamNames(route)| && ':' !in Fill(route, values)
    ensures forall v | v in values :: !StartsWithColon(v)
    decreases |route|
  {
    hide Cut, Name;
    if route != "" {
      if route[0] == ':' {
        var later := Fill(Later(route), values[1..]);
        assert forall c | c in later :: c in values[0] + later;
        assert forall c | c in values[0] :: c in values[0] + later;
        ValuesInFill(Later(route), values[1..]);
        assert values == [values[0]] + values[1..];
      } else {
        assert Fill(route, values)[1..] == Fill(route[1..], values);
        ValuesInFill(route[1..], values);
      }
    }
  }

  /** The path "/u/7/x" matches the route "/u/:id/x", and id is the one character at position 3. */
  lemma ParameterInFull()
    ensures Match("/u/:id/x", "/u/7/x", 0) == Some([Param("id", Slice(3, 1))])
  {
    var r, p := ":id/x", "7/x";
    ParameterParts();
    MatchParam(r, p, 3);
    assert Match("x", "x", 5) == Some([]);
    assert [Param("id", Slice(3, 1))] + [] == [Param("id", Slice(3, 1))];
    assert "/u/:id/x"[1..] == "u/:id/x" && "u/:id/x"[1..] == "/:id/x" && "/:id/x"[1..] == r;
    assert "/u/7/x"[1..] == "u/7/x" && "u/7/x"[1..] == "/7/x" && "/7/x"[1..] == p;
    hide Match;
    MatchChar("/:id/x", "/7/x", 2);
    MatchChar("u/:id/x", "u/7/x", 1);
    MatchChar("/u/:id/x", "/u/7/x", 0);
  }

  lemma ParameterParts()
    ensures var r, p := ":id/x", "7/x";
            FirstAt(p, '/') == 1 && Rest(p) == "x" && Rest(r) == "x" && Name(r) == "id"
  {
    var r, p := ":id/x", "7/x";
    assert FirstAt(p, '/') == 1 && Rest(p) == "x" by { assert p[1] == '/'; }
    assert FirstAt(r, '/') == 3 && Rest(r) == "x" && Name(r) == "id" by { assert r[3] == '/'; }
  }
}
