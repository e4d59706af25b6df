/**
 Template queries become SQL with numbered placeholders. The text is right exactly when reading it back
 finds each name's placeholder, and no other.
 */
module QueryParams {
  import opened Seqs
  import opened Template
  import opened StringPools
  import opened StrBufs
  import opened SqlText
  import opened RenderSpec

  // ----- what the query means -----

  /** The tokens the contents stand for, the names being numbered from k + 1. */
  function Meant(items: seq<Content<string>>, k: nat): seq<Token> {
    if items == [] then []
    else
      match items[0]
      case Const(s) => Words(s) + Meant(items[1..], k)
      case Name(_) => [Param(k + 1)] + Meant(items[1..], k + 1)
  }

  /** The SQL text from the front. */
  function Sql(items: seq<Content<string>>, k: nat): string {
    if items == [] then ""
    else
      match items[0]
      case Const(s) => s + Sql(items[1..], k)
      case Name(_) => "$" + Decimal(k + 1) + Sql(items[1..], k + 1)
  }

  /** Contents as the parser makes them: constants are not empty and never adjacent. */
  predicate Alternating(items: seq<Content<string>>) {
    && (forall i | 0 <= i < |items| && items[i].Const? :: items[i].text != "")
    && (forall i | 0 < i < |items| :: items[i].Const? ==> items[i - 1].Name?)
  }

  /**
   The constants have no placeholders of their own, none goes on with the number of a name before it, and
   none leaves an identifier, quotes, a comment or a `$` open for the name after it.
   */
  predicate Clean(items: seq<Content<string>>) {
    && (forall i | 0 <= i < |items| && items[i].Const? :: NoParam(items[i].text))
    && (forall i | 0 < i < |items| && items[i].Const? :: !Continues(items[i].text))
    && (forall i | 0 <= i < |items| - 1 && items[i].Const? :: Complete(items[i].text))
  }

  lemma AlternatingTail(items: seq<Content<string>>)
    requires items != [] && Alternating(items)
    ensures Alternating(items[1..])
    ensures items[0].Const? ==> items[0].text != "" && (|items| > 1 ==> items[1].Name?)
  {
    var t := items[1..];
    assert forall i | 0 <= i < |t| && t[i].Const? :: items[i + 1].text != "";
    assert forall i | 0 < i < |t| && t[i].Const? :: items[i + 1 - 1].Name?;
  }

  /** What the first item adds to being clean. */
  predicate CleanFirst(items: seq<Content<string>>)
    requires items != []
  {
    && (items[0].Const? ==> NoParam(items[0].text) && (|items| > 1 ==> Complete(items[0].text)))
    && (|items| > 1 && items[1].Const? ==> !Continues(items[1].text))
  }

  lemma CleanTail(items: seq<Content<string>>)
    requires items != []
    ensures Clean(items) <==> CleanFirst(items) && Clean(items[1..])
  {
    hide NoParam, Continues, Complete;
    var t := items[1..];
    assert forall i | 0 <= i < |t| :: t[i] == items[i + 1];
    if CleanFirst(items) && Clean(t) {
      forall i | 0 <= i < |items| && items[i].Const?
        ensures NoParam(items[i].text) && (i > 0 ==> !Continues(items[i].text))
        ensures i < |items| - 1 ==> Complete(items[i].text)
      {
        if i > 0 { assert t[i - 1] == items[i]; }
      }
    }
  }

  // ----- the emitted text -----

  lemma SqlStart(items: seq<Content<string>>, k: nat)
    requires Alternating(items)
    ensures Continues(Sql(items, k)) <==> items != [] && items[0].Const? && Continues(items[0].text)
    ensures items == [] || items[0].Name? ==> AfterConst(Sql(items, k)) && (Sql(items, k) == "" <==> items == [])
  {
    hide Decimal;
    if items != [] && items[0].Const? {
      assert items[0].text != "";
      assert Sql(items, k)[0] == items[0].text[0];
    }
  }

  /** The emitted text reads back as meant exactly when the contents are clean. */
  lemma {:induction false} ScanIsMeant(items: seq<Content<string>>, k: nat)
    requires Alternating(items)
    ensures Scan(Sql(items, k)) == Meant(items, k) <==> Clean(items)
    decreases |items|
  {
    if items != [] {
      var k' := if items[0].Name? then k + 1 else k;
      var rest := Sql(items[1..], k');
      AlternatingTail(items);
      CleanTail(items);
      SqlStart(items[1..], k');
      ScanIsMeant(items[1..], k');
      hide *;
      MeantFirst(items, k);
      match items[0]
      case Const(c) => ScanConst(c, rest, Meant(items[1..], k), items);
      case Name(_) => ScanName(k + 1, rest, Meant(items[1..], k + 1), items);
    }
  }

  lemma MeantFirst(items: seq<Content<string>>, k: nat)
    requires items != []
    ensures match items[0]
            case Const(c) => Meant(items, k) == Words(c) + Meant(items[1..], k)
                && Sql(items, k) == c + Sql(items[1..], k)
            case Name(_) =>
              && Meant(items, k) == [Param(k + 1)] + Meant(items[1..], k + 1)
              && Sql(items, k) == "$" + Decimal(k + 1) + Sql(items[1..], k + 1)
  {
    hide Decimal, Words;
  }

  lemma ScanConst(c: string, rest: string, meant: seq<Token>, items: seq<Content<string>>)
    requires items != [] && items[0] == Const(c) && (|items| > 1 ==> items[1].Name?)
    requires AfterConst(rest) && (rest == "" <==> |items| == 1)
    ensures Scan(c + rest) == Words(c) + meant <==> CleanFirst(items) && Scan(rest) == meant
  {
    hide *;
    TailComplete(items);
    if CleanFirst(items) {
      ScanAppend(c, rest);
      OwnWords(c);
      SameTail(Words(c), Scan(rest), meant);
    } else {
      ScanDiffers(c, rest);
      NotPrefix(Scan(c + rest), Words(c), meant);
    }
  }

  lemma TailComplete(items: seq<Content<string>>)
    requires items != [] && items[0].Const? && (|items| > 1 ==> items[1].Name?)
    ensures CleanFirst(items) <==> NoParam(items[0].text) && (|items| > 1 ==> Complete(items[0].text))
  {}

  lemma ScanName(k: nat, rest: string, meant: seq<Token>, items: seq<Content<string>>)
    requires k > 0 && items != [] && items[0].Name?
    requires Continues(rest) <==> |items| > 1 && items[1].Const? && Continues(items[1].text)
    ensures Scan("$" + Decimal(k) + rest) == [Param(k)] + meant <==> CleanFirst(items) && Scan(rest) == meant
  {
    DecimalRoundTrip(k);
    ParamFirst(Decimal(k), rest);
    TailFree(items);
    hide *;
    if CleanFirst(items) {
      SameTail([Param(k)], Scan(rest), meant);
    } else {
      NotPrefix(Scan("$" + Decimal(k) + rest), [Param(k)], meant);
    }
  }

  lemma TailFree(items: seq<Content<string>>)
    requires items != [] && items[0].Name?
    ensures CleanFirst(items) <==> !(|items| > 1 && items[1].Const? && Continues(items[1].text))
  {}

  lemma SameTail<T>(a: seq<T>, b: seq<T>, c: seq<T>)
    ensures a + b == a + c <==> b == c
  {
    if a + b == a + c {
      assert (a + b)[|a|..] == b && (a + c)[|a|..] == c;
    }
  }

  lemma {:induction false} SqlAppend(items: seq<Content<string>>, last: Content<string>, k: nat)
    ensures Sql(items + [last], k) == Sql(items, k) + Sql([last], k + NameCount(items))
    decreases |items|
  {
    hide Decimal;
    if items == [] {
      assert items + [last] == [last];
    } else {
      var rest := items[1..];
      var k' := k + (if items[0].Name? then 1 else 0);
      var first := if items[0].Name? then "$" + Decimal(k + 1) else items[0].text;
      assert (items + [last])[1..] == rest + [last] && (items + [last])[0] == items[0];
      NameCountFirst(items);
      SqlAppend(rest, last, k');
      assert Sql(items, k) == first + Sql(rest, k');
      assert Sql(items + [last], k) == first + Sql(rest + [last], k');
      Assoc(first, Sql(rest, k'), Sql([last], k + NameCount(items)));
    }
  }

  lemma {:induction false} NameCountFirst(items: seq<Content<string>>)
    requires items != []
    ensures NameCount(items) == (if items[0].Name? then 1 else 0) + NameCount(items[1..])
  {
    var n := |items| - 1;
    if n > 0 {
      NameCountFirst(items[..n]);
      assert items[1..][..n - 1] == items[..n][1..];
    } else {
      assert items[..0] == [] && items[1..] == [];
    }
  }

  /** The text from the front is the text the renderer builds. */
  lemma {:induction false} SqlIsQuerySql(items: seq<Content<string>>)
    ensures QuerySql(items, '\0') == Sql(items, 0)
  {
    if items != [] {
      var n := |items| - 1;
      assert items == items[..n] + [items[n]];
      SqlIsQuerySql(items[..n]);
      SqlAppend(items[..n], items[n], 0);
      assert [items[n]][1..] == [];
    }
  }

  /**
   Query parameterisation is right exactly when no constant has a placeholder of its own, none goes on with
   a digit or a letter where a name has just been, and none leaves a token open where a name follows: then
   the SQL text reads back as the tokens of the constants with `$1`, `$2`, ... for the names in order.
   */
  lemma PlaceholdersAreExact(items: seq<Content<string>>)
    requires Alternating(items)
    ensures Scan(QuerySql(items, '\0')) == Meant(items, 0) <==> Clean(items)
  {
    SqlIsQuerySql(items);
    ScanIsMeant(items, 0);
  }

  // ----- contents that are not read as meant -----

  /** `{{x}}0` becomes `$10`. */
  lemma DigitAfterName()
    ensures !Clean([Name("x"), Const("0")]) && Alternating([Name("x"), Const("0")])
    ensures Scan(QuerySql([Name("x"), Const("0")], '\0')) != Meant([Name("x"), Const("0")], 0)
  {
    var items := [Name("x"), Const("0")];
    assert Continues(items[1].text);
    PlaceholdersAreExact(items);
  }

  lemma AroundName(a: string, n: string, b: string)
    ensures Sql([Const(a), Name(n), Const(b)], 0) == a + ("$1" + b)
  {
    hide Decimal;
    var items := [Const(a), Name(n), Const(b)];
    assert items[1..] == [Name(n), Const(b)] && items[1..][1..] == [Const(b)] && items[1..][1..][1..] == [];
    assert Sql(items[1..][1..], 1) == b;
    assert Sql(items[1..], 0) == "$" + Decimal(1) + b;
    OneDigit();
  }

  lemma OneDigit()
    ensures "$" + Decimal(1) == "$1"
  {}

  /** A name after a constant that leaves a token open is not read. */
  lemma RunsOn(a: string, n: string, b: string)
    requires a != "" && b != "" && !Complete(a)
    ensures var items := [Const(a), Name(n), Const(b)];
            && Alternating(items) && !Clean(items)
            && QuerySql(items, '\0') == a + ("$1" + b) && Scan(a + ("$1" + b)) != Meant(items, 0)
  {
    var items := [Const(a), Name(n), Const(b)];
    NotComplete(items);
    hide *;
    ThreeAlternate(a, n, b);
    PlaceholdersAreExact(items);
    SqlIsQuerySql(items);
    AroundName(a, n, b);
  }

  lemma NotComplete(items: seq<Content<string>>)
    requires |items| > 1 && items[0].Const? && !Complete(items[0].text)
    ensures !Clean(items)
  {
    hide Complete, NoParam;
  }

  lemma ThreeAlternate(a: string, n: string, b: string)
    requires a != "" && b != ""
    ensures Alternating([Const(a), Name(n), Const(b)])
  {}

  /** Words of letters and spaces. */
  predicate Spaced(a: string) {
    && (forall i | 0 <= i < |a| :: a[i] == ' ' || 'a' <= a[i] <= 'z')
    && (a != "" ==> a[|a| - 1] == ' ')
  }

  /** What they leave to be read is what follows them. */
  lemma {:induction false} SpacedOpen(a: string, last: string)
    requires Spaced(a) && !Complete(last)
    ensures !Complete(a + last)
    decreases |a|
  {
    hide *;
    if a == "" {
      assert a + last == last;
    } else {
      var n := SpacedFirst(a, last);
      SpacedOpen(a[n..], last);
      assert (a + last)[n..] == a[n..] + last;
      CompleteStep(a + last);
    }
  }

  lemma CompleteStep(s: string)
    requires s != ""
    ensures Complete(s) <==> !First(s).open && Complete(s[First(s).len..])
  {
    hide First;
  }

  lemma SpacedFirst(a: string, last: string) returns (n: nat)
    requires Spaced(a) && a != ""
    ensures 0 < n <= |a| && Spaced(a[n..])
    ensures a + last != "" && First(a + last).len == n
  {
    var s := a + last;
    assert s[0] == a[0] && (|a| > 1 ==> s[1] == a[1]);
    n := 1;
    if a[0] != ' ' {
      IdentRunAppend(a, last);
      assert !IdentChar(a[|a| - 1]);
      assert StartOf(s) == Word;
      n := IdentRun(a);
    } else {
      assert StartOf(s) == Single;
    }
    hide IdentRun, FirstDollar, DelimitedToken, StartOf;
  }

  /** Contents with a name between two such texts. */
  lemma SpacedRunsOn(a: string, last: string, b: string)
    requires Spaced(a) && last != "" && b != "" && !Complete(last)
    ensures var items := [Const(a + last), Name("x"), Const(b)];
            && Alternating(items) && !Clean(items)
            && QuerySql(items, '\0') == a + last + ("$1" + b) && Scan(QuerySql(items, '\0')) != Meant(items, 0)
  {
    hide *;
    SpacedOpen(a, last);
    assert a + last != "";
    RunsOn(a + last, "x", b);
  }

  lemma LeftOpen()
    ensures !Complete("a") && !Complete("'") && !Complete("$")
  {}

  /** `where a{{x}} = 1` becomes `where a$1 = 1`, in which `a$1` is one identifier. */
  lemma NameAfterIdent()
    ensures var items := [Const("where " + "a"), Name("x"), Const(" = 1")];
            && Alternating(items) && !Clean(items)
            && QuerySql(items, '\0') == "where " + "a" + ("$1" + " = 1")
                && Scan(QuerySql(items, '\0')) != Meant(items, 0)
  {
    LeftOpen();
    assert Spaced("where ");
    hide *;
    SpacedRunsOn("where ", "a", " = 1");
  }

  /** `select '{{x}}'` becomes `select '$1'`, which is a string. */
  lemma NameInQuotes()
    ensures var items := [Const("select " + "'"), Name("x"), Const("'")];
            && Alternating(items) && !Clean(items)
            && QuerySql(items, '\0') == "select " + "'" + ("$1" + "'") && Scan(QuerySql(items, '\0')) != Meant(items, 0)
  {
    LeftOpen();
    assert Spaced("select ");
    hide *;
    SpacedRunsOn("select ", "'", "'");
  }

  /** `select ${{x}} as y` becomes `select $$1 as y`, in which `$$` opens a dollar quote. */
  lemma NameAfterDollar()
    ensures var items := [Const("select " + "$"), Name("x"), Const(" as y")];
            && Alternating(items) && !Clean(items)
            && QuerySql(items, '\0') == "select " + "$" + ("$1" + " as y")
                && Scan(QuerySql(items, '\0')) != Meant(items, 0)
  {
    LeftOpen();
    assert Spaced("select ");
    hide *;
    SpacedRunsOn("select ", "$", " as y");
  }

  // ----- substitution -----

  /** Puts the k-th text for placeholder k. */
  function Substitute(tokens: seq<Token>, args: seq<string>): string {
    if tokens == [] then ""
    else
      (match tokens[0]
       case Char(c) => [c]
       case Ident(t) => t
       case Quoted(t) => t
       case Junk(t) => t
       case Param(k) => if 0 < k <= |args| then args[k - 1] else "")
      + Substitute(tokens[1..], args)
  }

  /** The contents with every name replaced by a text of its own. */
  function Direct(items: seq<Content<string>>, textOf: string -> string): string {
    if items == [] then ""
    else (match items[0] case Const(s) => s case Name(n) => textOf(n)) + Direct(items[1..], textOf)
  }

  function NameTexts(items: seq<Content<string>>, textOf: string -> string): (r: seq<string>)
    ensures |r| == NameCount(items)
  {
    if items == [] then []
    else
      NameTexts(items[..|items| - 1], textOf)
      + (if items[|items| - 1].Name? then [textOf(items[|items| - 1].name)] else [])
  }

  lemma {:induction false} NameTextsFirst(items: seq<Content<string>>, textOf: string -> string)
    requires items != []
    ensures NameTexts(items, textOf)
            == (if items[0].Name? then [textOf(items[0].name)] else []) + NameTexts(items[1..], textOf)
  {
    var n := |items| - 1;
    if n > 0 {
      NameTextsFirst(items[..n], textOf);
      assert items[1..][..n - 1] == items[..n][1..];
    } else {
      assert items[..0] == [] && items[1..] == [];
    }
  }

  lemma SubstituteFirst(first: Token, tokens: seq<Token>, args: seq<string>)
    ensures Substitute([first] + tokens, args) == Substitute([first], args) + Substitute(tokens, args)
    ensures !first.Param? ==> Substitute([first], args) == if first.Char? then [first.c] else first.text
  {
    assert ([first] + tokens)[1..] == tokens && [first][1..] == [];
  }

  lemma FirstText(s: string)
    requires s != ""
    ensures var t := Own(s); !t.Param? && (if t.Char? then [t.c] else t.text) == s[..First(s).len]
  {
    hide Delimited, IdentRun, TagRun;
    assert s[..1] == [s[0]];
    if First(s).token.Junk? && StartOf(s).Dollar? && DigitRun(s[1..]) > 0 {
      var n := DigitRun(s[1..]);
      JunkText(s, n);
    }
  }

  lemma JunkText(s: string, n: nat)
    requires n + 1 < |s| && s[0] == '$'
    ensures "$" + s[1..][..n] + s[1..][n..][..1] == s[..n + 2]
  {}

  /** The text of a token, but of a placeholder. */
  lemma OwnText(s: string, tokens: seq<Token>, args: seq<string>)
    requires s != ""
    ensures Substitute([Own(s)] + tokens, args) == s[..First(s).len] + Substitute(tokens, args)
  {
    SubstituteFirst(Own(s), tokens, args);
    FirstText(s);
    hide First;
  }

  lemma {:induction false} SubstituteWords(s: string, tokens: seq<Token>, args: seq<string>)
    ensures Substitute(Words(s) + tokens, args) == s + Substitute(tokens, args)
    decreases |s|
  {
    hide Substitute, First, Own;
    if s == "" {
      assert Words(s) + tokens == tokens;
    } else {
      var n := First(s).len;
      SubstituteWords(s[n..], tokens, args);
      OwnText(s, Words(s[n..]) + tokens, args);
      Assoc([Own(s)], Words(s[n..]), tokens);
      Assoc(s[..n], s[n..], Substitute(tokens, args));
      assert s[..n] + s[n..] == s;
    }
  }

  lemma {:induction false} SubstituteMeant(items: seq<Content<string>>, before: seq<string>, textOf: string -> string)
    ensures Substitute(Meant(items, |before|), before + NameTexts(items, textOf)) == Direct(items, textOf)
    decreases |items|
  {
    if items != [] {
      var rest, k := items[1..], |before|;
      NameTextsFirst(items, textOf);
      MeantFirst(items, k);
      DirectFirst(items, textOf);
      var args := before + NameTexts(items, textOf);
      hide *;
      match items[0]
      case Const(s) =>
        assert args == before + NameTexts(rest, textOf) by {
          assert [] + NameTexts(rest, textOf) == NameTexts(rest, textOf);
        }
        SubstituteMeant(rest, before, textOf);
        SubstituteWords(s, Meant(rest, k), args);
      case Name(n) =>
        var x := textOf(n);
        Assoc(before, [x], NameTexts(rest, textOf));
        SubstituteMeant(rest, before + [x], textOf);
        SubstituteParam(k, Meant(rest, k + 1), before, x, NameTexts(rest, textOf));
    }
  }

  lemma DirectFirst(items: seq<Content<string>>, textOf: string -> string)
    requires items != []
    ensures Direct(items, textOf)
            == (match items[0] case Const(s) => s case Name(n) => textOf(n)) + Direct(items[1..], textOf)
  {}

  lemma SubstituteParam(k: nat, tokens: seq<Token>, before: seq<string>, x: string, after: seq<string>)
    requires |before| == k
    ensures Substitute([Param(k + 1)] + tokens, before + [x] + after) == x + Substitute(tokens, before + [x] + after)
  {
    assert ([Param(k + 1)] + tokens)[1..] == tokens;
  }

  /** The arguments are the values of the names, in the order of the names. */
  lemma {:induction false} ArgumentsInOrder<V>(items: seq<Content<string>>, scope: Scope<V>, i: nat)
    requires i < |items| && items[i].Name? && AllBound(items, scope)
    ensures NameCount(items[..i]) < NameCount(items)
    ensures QueryArgs(items, scope)[NameCount(items[..i])] == scope[items[i].name].value
  {
    var k := |items| - 1;
    if i < k {
      ArgumentsInOrder(items[..k], scope, i);
      assert items[..k][..i] == items[..i];
    }
  }

  /** So their texts are what the names stand for. */
  lemma {:induction false} ArgumentTexts<V>(items: seq<Content<string>>, scope: Scope<V>, w: World<V>,
                                            textOf: string -> string)
    requires AllBound(items, scope)
    requires forall c | c in items && c.Name? :: textOf(c.name) == w.text(scope[c.name].value)
    ensures NameTexts(items, textOf) == Texts(QueryArgs(items, scope), w)
  {
    if items != [] {
      var k := |items| - 1;
      assert items == items[..k] + [items[k]];
      ArgumentTexts(items[..k], scope, w, textOf);
    }
  }

  function Texts<V>(args: seq<V>, w: World<V>): (r: seq<string>)
    ensures |r| == |args| && forall i | 0 <= i < |r| :: r[i] == w.text(args[i])
  {
    seq(|args|, i requires 0 <= i < |args| => w.text(args[i]))
  }

  /**
   A query means what its author wrote: putting the texts of the arguments that are sent in the place of the
   placeholders of the SQL text that is sent gives the contents with the names replaced by their values.
   */
  lemma QueryKeepsMeaning<V>(items: seq<Content<string>>, scope: Scope<V>, w: World<V>, textOf: string -> string)
    requires Alternating(items) && Clean(items) && AllBound(items, scope)
    requires forall c | c in items && c.Name? :: textOf(c.name) == w.text(scope[c.name].value)
    ensures Substitute(Scan(QuerySql(items, '\0')), Texts(QueryArgs(items, scope), w)) == Direct(items, textOf)
  {
    ParametersKeepMeaning(items, textOf);
    ArgumentTexts(items, scope, w, textOf);
    hide *;
  }

  /**
   Parameterisation keeps meaning: for clean contents, replacing each placeholder of the emitted SQL by
   the text of its argument gives the contents with the names replaced directly.
   */
  lemma ParametersKeepMeaning(items: seq<Content<string>>, textOf: string -> string)
    requires Alternating(items) && Clean(items)
    ensures Substitute(Scan(QuerySql(items, '\0')), NameTexts(items, textOf)) == Direct(items, textOf)
    ensures |NameTexts(items, textOf)| == NameCount(items) <= |items|
  {
    PlaceholdersAreExact(items);
    SubstituteMeant(items, [], textOf);
    assert [] + NameTexts(items, textOf) == NameTexts(items, textOf);
  }
}
