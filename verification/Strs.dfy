/** The slices of str.h: trimming, dropping, taking, searching and splitting. */
module Strs {

  predicate IsSpace(c: char) {
    c == ' ' || c == '\t' || c == '\n'
  }

  /** str_char_at: NUL past the end. */
  function CharAt(s: string, i: nat): (c: char)
    ensures i < |s| ==> c == s[i]
  {
    if i < |s| then s[i] else '\0'
  }

  function Drop(s: string, n: nat): (r: string)
    ensures |r| == if n > |s| then 0 else |s| - n
  {
    if n > |s| then "" else s[n..]
  }

  function Take(s: string, n: nat): (r: string)
    ensures |r| == if n > |s| then |s| else n
  {
    if n > |s| then s else s[..n]
  }

  /** str_ltrim: the longest suffix that does not start with white space. */
  function LTrim(s: string): (r: string)
    ensures |r| <= |s| && r == s[|s| - |r|..]
    ensures r != "" ==> !IsSpace(r[0])
    ensures forall i | 0 <= i < |s| - |r| :: IsSpace(s[i])
  {
    if s != "" && IsSpace(s[0]) then LTrim(s[1..]) else s
  }

  /** str_rtrim: the longest prefix that does not end in white space. */
  function RTrim(s: string): (r: string)
    ensures |r| <= |s| && r == s[..|r|]
    ensures r != "" ==> !IsSpace(r[|r| - 1])
    ensures forall i | |r| <= i < |s| :: IsSpace(s[i])
  {
    if s != "" && IsSpace(s[|s| - 1]) then RTrim(s[..|s| - 1]) else s
  }

  function Trim(s: string): (r: string)
    ensures |r| <= |s|
    ensures r != "" ==> !IsSpace(r[0]) && !IsSpace(r[|r| - 1])
  {
    var t := RTrim(s);
    var r := LTrim(t);
    assert r != "" ==> r[|r| - 1] == t[|t| - 1];
    r
  }

  /** str_indexof: the first position of a character, or -1. */
  function IndexOf(s: string, c: char): (r: int)
    ensures -1 <= r < |s|
    ensures r == -1 <==> c !in s
    ensures r >= 0 ==> s[r] == c && c !in s[..r]
  {
    if s == "" then -1
    else if s[0] == c then 0
    else
      var r := IndexOf(s[1..], c);
      assert s == [s[0]] + s[1..];
      if r == -1 then -1
      else
        assert s[..r + 1] == [s[0]] + s[1..][..r];
        r + 1
  }

  /** Where str_splitat cuts: the first position of one of the characters, or the end. */
  function SplitPoint(s: string, chars: string): (r: nat)
    ensures r <= |s|
    ensures forall i | 0 <= i < r :: s[i] !in chars
    ensures r < |s| ==> s[r] in chars
  {
    if s == "" || s[0] in chars then 0 else 1 + SplitPoint(s[1..], chars)
  }

  function Before(s: string, chars: string): string {
    s[..SplitPoint(s, chars)]
  }

  /** What str_splitat leaves: the text after the separator, or nothing. */
  function After(s: string, chars: string): (r: string)
    ensures |r| <= |s| && (s != "" ==> |r| < |s|)
  {
    Drop(s, SplitPoint(s, chars) + 1)
  }

  method StrIndexOf(s: string, c: char) returns (r: int)
    ensures r == IndexOf(s, c)
  {
    var i := 0;
    while i < |s|
      invariant 0 <= i <= |s| && c !in s[..i]
    {
      if s[i] == c {
        IndexOfUnique(s, c, i);
        return i;
      }
      i := i + 1;
    }
    return -1;
  }

  lemma IndexOfUnique(s: string, c: char, i: nat)
    requires i < |s| && s[i] == c && c !in s[..i]
    ensures IndexOf(s, c) == i
  {
    assert forall k | 0 <= k < i :: s[..i][k] != c;
    assert forall k | 0 <= k < IndexOf(s, c) :: s[..IndexOf(s, c)][k] != c;
  }

  lemma SplitPointUnique(s: string, chars: string, i: nat)
    requires i <= |s| && (forall k | 0 <= k < i :: s[k] !in chars) && (i < |s| ==> s[i] in chars)
    ensures SplitPoint(s, chars) == i
  {}

  /** str_splitat: false on the empty string; without a separator everything is split off. */
  method StrSplitAt(s: string, chars: string) returns (ok: bool, split: string, rest: string)
    ensures ok == (s != "")
    ensures ok ==> split == Before(s, chars) && rest == After(s, chars)
  {
    if |s| == 0 {
      return false, "", "";
    }
    var at := 0;
    while at < |s|
      invariant 0 <= at <= |s|
      invariant forall k | 0 <= k < at :: s[k] !in chars
    {
      for i := 0 to |chars|
        invariant forall k | 0 <= k < i :: s[at] != chars[k]
      {
        if s[at] == chars[i] {
          SplitPointUnique(s, chars, at);
          return true, s[..at], s[at + 1..];
        }
      }
      at := at + 1;
    }
    SplitPointUnique(s, chars, |s|);
    return true, s, "";
  }

  lemma TrimIdempotent(s: string)
    requires s != "" ==> !IsSpace(s[0]) && !IsSpace(s[|s| - 1])
    ensures LTrim(s) == s && RTrim(s) == s && Trim(s) == s
  {}

  lemma {:induction false} LTrimSkips(w: string, s: string)
    requires forall i | 0 <= i < |w| :: IsSpace(w[i])
    ensures LTrim(w + s) == LTrim(s)
  {
    if w == "" {
      assert w + s == s;
    } else {
      assert (w + s)[1..] == w[1..] + s;
      LTrimSkips(w[1..], s);
    }
  }

  /** White space is space, tab and newline, and nothing else. */
  lemma SpaceExactly(c: char)
    ensures IsSpace(c) <==> c in " \t\n"
    ensures LTrim([c]) == (if c in " \t\n" then "" else [c]) && RTrim([c]) == LTrim([c])
  {
    assert " \t\n" == [' ', '\t', '\n'];
    assert [c][1..] == "" && [c][..0] == "";
  }
}
