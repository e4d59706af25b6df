/**
 Finding a parameter in a query string or a form body of mugshot.c. The text is split where it stands: what
 is found is a slice of the request buffer.
 */
module FormParameters {
  import opened Strs
  import opened StringPools
  import opened UrlDecode

  const NOWHERE: Slice := Slice(0, 0)

  /** Where a split at one character cuts: its first position, or the end. */
  function FirstAt(s: string, c: char): (r: nat)
    ensures r <= |s|
  {
    if s == "" || s[0] == c then 0 else 1 + FirstAt(s[1..], c)
  }

  lemma {:induction false} SplitIsFirst(s: string, c: char)
    ensures SplitPoint(s, [c]) == FirstAt(s, c)
  {
    if s != "" && s[0] != c {
      SplitIsFirst(s[1..], c);
    }
  }

  /**
   get_form_parameter on text that stands at `offset` of the buffer: the value of the first parameter of
   that name. A parameter without an equals sign has a value that is nowhere.
   */
  function FindParameter(s: string, offset: nat, name: string): Option<Slice>
    decreases |s|
  {
    if s == "" then None
    else
      var k := FirstAt(s, '&');
      var e := FirstAt(s[..k], '=');
      if k > 0 && s[..e] == name then Some(if e < k then Slice(offset + e + 1, k - e - 1) else NOWHERE)
      else if k < |s| then FindParameter(s[k + 1..], offset + k + 1, name)
      else None
  }

  lemma FindStep(s: string, offset: nat, name: string)
    requires s != ""
    ensures var k := FirstAt(s, '&');
            var e := FirstAt(s[..k], '=');
            var here := k > 0 && s[..e] == name;
            && (here ==>
                  FindParameter(s, offset, name) == Some(if e < k then Slice(offset + e + 1, k - e - 1) else NOWHERE))
            && (!here && k < |s| ==> FindParameter(s, offset, name) == FindParameter(s[k + 1..], offset + k + 1, name))
            && (!here && k == |s| ==> FindParameter(s, offset, name) == None)
  {
    hide FirstAt;
  }

  lemma FindNone(s: string, offset: nat, name: string)
    requires s == ""
    ensures FindParameter(s, offset, name) == None
  {}

  // ----- slices -----

  predicate Within(s: Slice, lo: nat, hi: nat) {
    s == NOWHERE || (lo <= s.start && s.End() <= hi)
  }

  predicate Apart(a: Slice, b: Slice) {
    a.len == 0 || b.len == 0 || a.End() <= b.start || b.End() <= a.start
  }

  lemma {:induction false} FoundWithin(s: string, offset: nat, name: string)
    requires FindParameter(s, offset, name).Some?
    ensures Within(FindParameter(s, offset, name).value, offset, offset + |s|)
    decreases |s|
  {
    hide FirstAt;
    var k := FirstAt(s, '&');
    if !(k > 0 && s[..FirstAt(s[..k], '=')] == name) {
      FoundWithin(s[k + 1..], offset + k + 1, name);
    }
  }

  /** Values of different names do not overlap, in any text. */
  lemma {:induction false} FoundApart(s: string, offset: nat, name: string, other: string)
    requires name != other
    requires FindParameter(s, offset, name).Some? && FindParameter(s, offset, other).Some?
    ensures Apart(FindParameter(s, offset, name).value, FindParameter(s, offset, other).value)
    decreases |s|
  {
    hide FirstAt;
    var k := FirstAt(s, '&');
    var key := s[..FirstAt(s[..k], '=')];
    if k > 0 && key == name {
      FoundWithin(s[k + 1..], offset + k + 1, other);
    } else if k > 0 && key == other {
      FoundWithin(s[k + 1..], offset + k + 1, name);
    } else {
      FoundApart(s[k + 1..], offset + k + 1, name, other);
    }
  }

  // ----- query strings -----

  /** Keys and encoded values, joined as a form is. */
  function Query(pairs: seq<(string, string)>): string {
    if pairs == [] then ""
    else
      pairs[0].0 + "=" + pairs[0].1 + (if |pairs| == 1 then "" else "&" + Query(pairs[1..]))
  }

  predicate PairsOk(pairs: seq<(string, string)>) {
    forall p | p in pairs :: '&' !in p.0 && '=' !in p.0 && '&' !in p.1
  }

  lemma {:induction false} FirstAfter(a: string, rest: string, c: char)
    requires c !in a && (rest != "" ==> rest[0] == c)
    ensures FirstAt(a + rest, c) == |a| && (a + rest)[..|a|] == a
  {
    if a == "" {
      assert a + rest == rest;
    } else {
      assert (a + rest)[1..] == a[1..] + rest;
      FirstAfter(a[1..], rest, c);
    }
  }

  /** The first pair of a query string, and the others. */
  lemma QuerySplit(pairs: seq<(string, string)>)
    requires PairsOk(pairs) && pairs != []
    ensures var q, key, value := Query(pairs), pairs[0].0, pairs[0].1;
            var k := |key| + 1 + |value|;
            && |q| >= k && FirstAt(q, '&') == k && FirstAt(q[..k], '=') == |key|
            && q[..|key|] == key && q[|key| + 1..k] == value
            && (if |pairs| == 1 then |q| == k else |q| > k && q[k + 1..] == Query(pairs[1..]))
    ensures PairsOk(pairs[1..])
  {
    hide *;
    var rest := QueryRest(pairs);
    FirstPair(pairs);
    FirstSplit(pairs[0].0, pairs[0].1, rest);
    Pieces(pairs[0].0, pairs[0].1, rest);
  }

  function QueryRest(pairs: seq<(string, string)>): string
    requires pairs != []
  {
    if |pairs| == 1 then "" else "&" + Query(pairs[1..])
  }

  lemma FirstPair(pairs: seq<(string, string)>)
    requires PairsOk(pairs) && pairs != []
    ensures '&' !in pairs[0].0 && '=' !in pairs[0].0 && '&' !in pairs[0].1 && PairsOk(pairs[1..])
    ensures var rest := QueryRest(pairs);
            && Query(pairs) == pairs[0].0 + "=" + pairs[0].1 + rest
            && (rest != "" ==> rest[0] == '&')
            && (if |pairs| == 1 then rest == "" else |rest| > 0 && rest[1..] == Query(pairs[1..]))
  {
    assert pairs[0] in pairs;
    assert forall p | p in pairs[1..] :: p in pairs;
  }

  lemma FirstSplit(key: string, value: string, rest: string)
    requires '&' !in key && '=' !in key && '&' !in value && (rest != "" ==> rest[0] == '&')
    ensures FirstAt(key + "=" + value + rest, '&') == |key| + 1 + |value|
    ensures FirstAt(key + "=" + value, '=') == |key|
  {
    hide FirstAt;
    assert '&' !in key + "=" + value;
    FirstAfter(key + "=" + value, rest, '&');
    assert key + "=" + value == key + ("=" + value);
    FirstAfter(key, "=" + value, '=');
  }

  lemma Pieces(key: string, value: string, rest: string)
    ensures var q := key + "=" + value + rest;
            var k := |key| + 1 + |value|;
            && q[..|key|] == key && q[|key| + 1..k] == value && q[..k] == key + "=" + value
            && (|rest| > 0 ==> q[k + 1..] == rest[1..])
  {}

  /** In a query string each name is found once, with its value: exactly the encoded text of its pair. */
  lemma {:induction false} FoundInQuery(pairs: seq<(string, string)>, offset: nat, j: nat)
    requires PairsOk(pairs) && j < |pairs| && forall i | 0 <= i < j :: pairs[i].0 != pairs[j].0
    ensures var r := FindParameter(Query(pairs), offset, pairs[j].0);
            && r.Some? && offset <= r.value.start && r.value.End() <= offset + |Query(pairs)|
            && Query(pairs)[r.value.start - offset..r.value.End() - offset] == pairs[j].1
    decreases |pairs|
  {
    hide FindParameter, Query, FirstAt, PairsOk;
    QuerySplit(pairs);
    NotEmptyQuery(pairs);
    FindStep(Query(pairs), offset, pairs[j].0);
    if j > 0 {
      var k := |pairs[0].0| + 1 + |pairs[0].1|;
      FoundInQuery(pairs[1..], offset + k + 1, j - 1);
      FoundLater(Query(pairs), k + 1, offset, FindParameter(Query(pairs[1..]), offset + k + 1, pairs[j].0).value);
    }
  }

  lemma FoundLater(q: string, k: nat, offset: nat, r: Slice)
    requires k <= |q| && offset + k <= r.start && r.End() <= offset + |q|
    ensures q[k..][r.start - (offset + k)..r.End() - (offset + k)] == q[r.start - offset..r.End() - offset]
  {}

  lemma NotEmptyQuery(pairs: seq<(string, string)>)
    requires pairs != []
    ensures Query(pairs) != ""
  {}

  lemma {:induction false} NotInQuery(pairs: seq<(string, string)>, offset: nat, name: string)
    requires PairsOk(pairs) && forall p | p in pairs :: p.0 != name
    ensures FindParameter(Query(pairs), offset, name) == None
    decreases |pairs|
  {
    hide FindParameter, Query, FirstAt, PairsOk;
    if pairs == [] {
      FindNone(Query(pairs), offset, name) by { EmptyQuery(); }
    } else {
      QuerySplit(pairs);
      NotEmptyQuery(pairs);
      assert pairs[0] in pairs;
      FindStep(Query(pairs), offset, name);
      if |pairs| > 1 {
        assert forall p | p in pairs[1..] :: p in pairs;
        NotInQuery(pairs[1..], offset + |pairs[0].0| + 1 + |pairs[0].1| + 1, name);
      }
    }
  }

  lemma EmptyQuery()
    ensures Query([]) == ""
  {}

  // ----- the code -----

  /** str_splitat on a slice of the buffer, at one character. */
  method SplitAt(buf: array<char>, s: Slice, c: char) returns (ok: bool, split: Slice, rest: Slice)
    requires s.End() <= buf.Length
    ensures ok == (s.len > 0)
    ensures ok ==> var k := FirstAt(Text(buf[..], s), c);
                   && split == Slice(s.start, k)
                   && rest == if k < s.len then Slice(s.start + k + 1, s.len - k - 1) else NOWHERE
  {
    ghost var t := Text(buf[..], s);
    split, rest := NOWHERE, NOWHERE;
    if s.len == 0 {
      return false, split, rest;
    }
    var at := 0;
    assert t[0..] == t;
    while at < s.len
      invariant 0 <= at <= s.len && FirstAt(t, c) == at + FirstAt(t[at..], c)
    {
      assert t[at] == buf[s.start + at];
      if buf[s.start + at] == c {
        return true, Slice(s.start, at), Slice(s.start + at + 1, s.len - at - 1);
      }
      assert t[at..][1..] == t[at + 1..];
      at := at + 1;
    }
    return true, s, NOWHERE;
  }

  /** get_form_parameter */
  method GetFormParameter(buf: array<char>, parameters: Slice, name: string) returns (found: bool, value: Slice)
    requires parameters.End() <= buf.Length && NulFree(name)
    ensures var r := FindParameter(Text(buf[..], parameters), parameters.start, name);
            found == r.Some? && (found ==> value == r.value)
  {
    hide FindParameter, FirstAt, NulFree, StrEq, Text;
    ghost var b := buf[..];
    var rest := parameters;
    value := NOWHERE;
    while rest.len > 0
      invariant rest.End() <= buf.Length
      invariant FindParameter(Text(b, parameters), parameters.start, name)
                == FindParameter(Text(b, rest), rest.start, name)
      decreases rest.len
    {
      NotEmptyText(b, rest);
      FindStep(Text(b, rest), rest.start, name);
      var ok, parameter, after := SplitAt(buf, rest, '&');
      TextPrefix(b, rest, parameter.len);
      var split, n, val := SplitAt(buf, parameter, '=');
      if split {
        var text := buf[n.start..n.End()];
        TextPrefix(b, rest, n.len);
        TextOf(b, n, text);
        StrEqRight(text, name);
        if StrEq(text, name) {
          return true, val;
        }
      }
      if parameter.len < rest.len {
        TextSuffix(b, rest, parameter.len + 1);
      } else {
        FindNowhere(b, name);
      }
      rest := after;
    }
    EmptyText(b, rest);
    FindNone(Text(b, rest), rest.start, name);
    found := false;
  }

  lemma NotEmptyText(b: seq<char>, s: Slice)
    requires s.End() <= |b| && s.len > 0
    ensures Text(b, s) != "" && |Text(b, s)| == s.len
  {}

  lemma EmptyText(b: seq<char>, s: Slice)
    requires s.End() <= |b| && s.len == 0
    ensures Text(b, s) == ""
  {}

  lemma TextPrefix(b: seq<char>, s: Slice, n: nat)
    requires s.End() <= |b| && n <= s.len
    ensures |Text(b, s)| == s.len && Text(b, Slice(s.start, n)) == Text(b, s)[..n]
  {
    var x, y := Text(b, Slice(s.start, n)), Text(b, s)[..n];
    assert |x| == |y| && forall k | 0 <= k < |x| :: x[k] == y[k];
  }

  lemma TextSuffix(b: seq<char>, s: Slice, n: nat)
    requires s.End() <= |b| && n <= s.len
    ensures |Text(b, s)| == s.len && Text(b, Slice(s.start + n, s.len - n)) == Text(b, s)[n..]
  {
    var x, y := Text(b, Slice(s.start + n, s.len - n)), Text(b, s)[n..];
    assert |x| == |y| && forall k | 0 <= k < |x| :: x[k] == y[k];
  }

  lemma TextOf(b: seq<char>, s: Slice, t: string)
    requires s.End() <= |b| && t == b[s.start..s.End()]
    ensures t == Text(b, s)
  {}

  lemma FindNowhere(b: seq<char>, name: string)
    ensures FindParameter(Text(b, NOWHERE), NOWHERE.start, name) == None
  {}

  /** str_eq is equality when the second string has no NUL. */
  lemma StrEqRight(a: string, b: string)
    requires NulFree(b)
    ensures StrEq(a, b) <==> a == b
  {
    if |a| == |b| {
      StrnEqRight(a, b, |a|);
      assert a[..|a|] == a && b[..|b|] == b;
    }
  }

  lemma {:induction false} StrnEqRight(a: string, b: string, n: nat)
    requires n <= |a| && n <= |b| && NulFree(b)
    ensures StrnEq(a, b, n) <==> a[..n] == b[..n]
  {
    if n > 0 {
      StrnEqRight(a, b, n - 1);
      assert a[..n] == a[..n - 1] + [a[n - 1]] && b[..n] == b[..n - 1] + [b[n - 1]];
    }
  }

  /** mugshot_request_parameter: the query string first, then the body if it is a form. */
  function Lookup(buf: seq<char>, query: Slice, isForm: bool, body: Slice, name: string): Option<Slice>
    requires query.End() <= |buf| && body.End() <= |buf|
  {
    var inQuery := FindParameter(Text(buf, query), query.start, name);
    if inQuery.Some? then inQuery
    else if isForm then FindParameter(Text(buf, body), body.start, name)
    else None
  }

  method RequestParameter(buf: array<char>, query: Slice, isForm: bool, body: Slice, name: string)
    returns (found: bool, value: Slice)
    requires query.End() <= buf.Length && body.End() <= buf.Length && NulFree(name)
    ensures var r := Lookup(buf[..], query, isForm, body, name); found == r.Some? && (found ==> value == r.value)
  {
    hide FindParameter, NulFree;
    found, value := GetFormParameter(buf, query, name);
    if !found && isForm {
      found, value := GetFormParameter(buf, body, name);
    }
  }

  /** In `a=1&b=23` the value of b is the two characters at position 6. */
  lemma SecondParameter()
    ensures FindParameter("a=1&b=23", 0, "b") == Some(Slice(6, 2))
    ensures FindParameter("a=1&b=23", 0, "a") == Some(Slice(2, 1))
  {
    var s := "a=1&b=23";
    assert FirstAt(s, '&') == 3 && s[..3] == "a=1" && s[4..] == "b=23";
    assert FirstAt("a=1", '=') == 1 && s[..1] == "a";
    assert FirstAt("b=23", '&') == 4 && "b=23"[..4] == "b=23" && FirstAt("b=23", '=') == 1 && "b=23"[..1] == "b";
  }
}
