/**
 How PostgreSQL cuts SQL text into tokens, as far as it matters for what is a placeholder: string literals,
 quoted identifiers, comments and dollar quotes hide what is in them, and identifiers may hold a `$`.
 */
module SqlText {
  import opened Seqs
  import opened StrBufs

  /**
   What the text is read as. `Quoted` is a string, a quoted identifier or a comment, with its delimiters.
   `Junk` is no SQL: a placeholder that runs into a letter, and a `$` that starts nothing.
   */
  datatype Token = Char(c: char) | Ident(text: string) | Param(k: nat) | Quoted(text: string) | Junk(text: string)

  // ----- characters and runs -----

  predicate IsDigit(c: char) {
    '0' <= c <= '9'
  }

  /** An identifier starts with a letter, an underscore or a byte above ASCII. */
  predicate IdentStart(c: char) {
    'a' <= c <= 'z' || 'A' <= c <= 'Z' || c == '_' || c as int >= 128
  }

  /** And goes on with digits and dollar signs as well; the tag of a dollar quote with digits only. */
  predicate IdentChar(c: char) {
    IdentStart(c) || IsDigit(c) || c == '$'
  }

  predicate StartsWithDigit(s: string) {
    s != "" && IsDigit(s[0])
  }

  predicate StartsIdent(s: string) {
    s != "" && IdentStart(s[0])
  }

  /** Digits would go on with the number before them, and a letter makes it junk. */
  predicate Continues(s: string) {
    StartsWithDigit(s) || StartsIdent(s)
  }

  function DigitRun(s: string): (n: nat)
    ensures n <= |s| && (forall i | 0 <= i < n :: IsDigit(s[i]))
    ensures n < |s| ==> !IsDigit(s[n])
    ensures StartsWithDigit(s) <==> n > 0
  {
    if StartsWithDigit(s) then 1 + DigitRun(s[1..]) else 0
  }

  function IdentRun(s: string): (n: nat)
    ensures n <= |s| && (forall i | 0 <= i < n :: IdentChar(s[i]))
    ensures n < |s| ==> !IdentChar(s[n])
    ensures s != "" && IdentChar(s[0]) ==> n > 0
  {
    if s != "" && IdentChar(s[0]) then 1 + IdentRun(s[1..]) else 0
  }

  function TagRun(s: string): (n: nat)
    ensures n <= |s| && (forall i | 0 <= i < n :: IdentStart(s[i]) || IsDigit(s[i]))
    ensures n < |s| ==> !IdentStart(s[n]) && !IsDigit(s[n])
  {
    if s != "" && (IdentStart(s[0]) || IsDigit(s[0])) then 1 + TagRun(s[1..]) else 0
  }

  // ----- delimited text -----

  /**
   Where the text is: in quotes, in a string with escapes, in a comment to the end of the line or a nested
   one, in a dollar quote.
   */
  datatype Inside = Quotes(q: char) | Escapes | Line | Comment(depth: nat) | Dollars(delimiter: string)

  /** Delimiters as they occur: a `$` is no quote, and a dollar quote has one. */
  predicate Sound(inside: Inside) {
    inside != Quotes('$') && (inside.Dollars? ==> inside.delimiter != "")
  }

  /** The next characters: they end the delimited text, or it goes on after them. */
  datatype Move = Stop(n: nat) | Go(n: nat, inside: Inside)

  function Next(inside: Inside, s: string): (m: Move)
    requires s != ""
    ensures m.n <= |s| && (m.Go? ==> m.n > 0)
  {
    match inside
    case Quotes(q) =>
      if s[0] != q then Go(1, inside) else if |s| > 1 && s[1] == q then Go(2, inside) else Stop(1)
    case Escapes =>
      if s[0] == '\\' then Go(if |s| > 1 then 2 else 1, inside)
      else if s[0] != '\'' then Go(1, inside)
      else if |s| > 1 && s[1] == '\'' then Go(2, inside)
      else Stop(1)
    case Line => if s[0] == '\n' || s[0] == '\r' then Stop(1) else Go(1, inside)
    case Comment(depth) =>
      if |s| > 1 && s[0] == '*' && s[1] == '/' then if depth <= 1 then Stop(2) else Go(2, Comment(depth - 1))
      else if |s| > 1 && s[0] == '/' && s[1] == '*' then Go(2, Comment(depth + 1))
      else Go(1, inside)
    case Dollars(delimiter) => if delimiter <= s then Stop(|delimiter|) else Go(1, inside)
  }

  /** How far delimited text goes, with its closing delimiter if there is one. */
  datatype Extent = Extent(len: nat, closed: bool)

  function Delimited(inside: Inside, s: string): (e: Extent)
    ensures e.len <= |s| && (!e.closed ==> e.len == |s|)
    decreases |s|
  {
    if s == "" then Extent(0, false)
    else
      match Next(inside, s)
      case Stop(n) => Extent(n, true)
      case Go(n, inside') =>
        var e := Delimited(inside', s[n..]);
        Extent(n + e.len, e.closed)
  }

  // ----- tokens -----

  /** A token and its length; `open` if a `$` after the text would still belong to it. */
  datatype Lexeme = Lexeme(token: Token, len: nat, open: bool)

  function DelimitedToken(s: string, n: nat, inside: Inside): (r: Lexeme)
    requires 0 < n <= |s|
    ensures 0 < r.len <= |s| && (r.open ==> r.len == |s|) && r.token == Quoted(s[..r.len])
  {
    var e := Delimited(inside, s[n..]);
    Lexeme(Quoted(s[..n + e.len]), n + e.len, !e.closed)
  }

  /** `E'` starts a string with escapes. */
  predicate StartsEscapes(s: string) {
    |s| > 1 && (s[0] == 'e' || s[0] == 'E') && s[1] == '\''
  }

  /** How a token starts: an identifier, a delimiter of n characters, a `$`, or any other character. */
  datatype Start = Word | Opening(n: nat, inside: Inside) | Dollar | Single

  function StartOf(s: string): (r: Start)
    requires s != ""
    ensures r.Opening? ==> 0 < r.n <= |s| && Sound(r.inside)
    ensures r.Dollar? ==> s[0] == '$'
    ensures r.Word? ==> IdentStart(s[0])
  {
    if StartsEscapes(s) then Opening(2, Escapes)
    else if StartsIdent(s) then Word
    else if s[0] == '\'' || s[0] == '"' then Opening(1, Quotes(s[0]))
    else if |s| > 1 && s[0] == '-' && s[1] == '-' then Opening(2, Line)
    else if |s| > 1 && s[0] == '/' && s[1] == '*' then Opening(2, Comment(1))
    else if s[0] == '$' then Dollar
    else Single
  }

  /** The first token of a text. */
  function First(s: string): (r: Lexeme)
    requires s != ""
    ensures 0 < r.len <= |s| && (r.open ==> r.len == |s| && !r.token.Param?)
  {
    match StartOf(s)
    case Word => Lexeme(Ident(s[..IdentRun(s)]), IdentRun(s), IdentRun(s) == |s|)
    case Opening(n, inside) => DelimitedToken(s, n, inside)
    case Dollar => FirstDollar(s)
    case Single => Lexeme(Char(s[0]), 1, false)
  }

  /** A `$` has been read and then all of these digits. */
  function FirstParam(digits: string, rest: string): (r: Lexeme)
    requires AllDigits(digits)
    ensures 0 < r.len <= 1 + |digits| + |rest| && !r.open
  {
    if StartsIdent(rest) then Lexeme(Junk("$" + digits + rest[..1]), |digits| + 2, false)
    else Lexeme(Param(DecimalValue(digits)), |digits| + 1, false)
  }

  /** A `$` and digits are a placeholder. With a tag, or none, and another `$` it starts a dollar quote. */
  function FirstDollar(s: string): (r: Lexeme)
    requires s != "" && s[0] == '$'
    ensures 0 < r.len <= |s| && (r.open ==> r.len == |s| && !r.token.Param?)
  {
    var digits := DigitRun(s[1..]);
    if digits > 0 then FirstParam(s[1..][..digits], s[1..][digits..])
    else
      FirstTag(s, 1 + TagRun(s[1..]))
  }

  /** A `$` and a tag, n characters in all. */
  function FirstTag(s: string, n: nat): (r: Lexeme)
    requires 0 < n <= |s|
    ensures 0 < r.len <= |s| && (r.open ==> r.len == |s| && !r.token.Param?)
  {
    if n < |s| && s[n] == '$' then DelimitedToken(s, n + 1, Dollars(s[..n + 1]))
    else Lexeme(Junk(s[..n]), n, n == |s|)
  }

  /** All tokens of a text. */
  function Scan(s: string): seq<Token>
    decreases |s|
  {
    if s == "" then [] else [First(s).token] + Scan(s[First(s).len..])
  }

  /** The tokens of a text none of which is meant as a placeholder. */
  function Words(s: string): seq<Token>
    decreases |s|
  {
    if s == "" then [] else [Own(s)] + Words(s[First(s).len..])
  }

  function Own(s: string): Token
    requires s != ""
  {
    if First(s).token.Param? then Junk(s[..First(s).len]) else First(s).token
  }

  /** No token is a placeholder. */
  predicate NoParam(s: string)
    decreases |s|
  {
    s == "" || (!First(s).token.Param? && NoParam(s[First(s).len..]))
  }

  /** A `$` after the text starts a token of its own: no identifier, quotes, comment or `$` is left open. */
  predicate Complete(s: string)
    decreases |s|
  {
    s == "" || (!First(s).open && Complete(s[First(s).len..]))
  }

  // ----- what follows does not matter to a complete text -----

  /** Nothing follows, or a dollar sign. */
  predicate AfterConst(rest: string) {
    rest == "" || rest[0] == '$'
  }

  lemma {:induction false} DelimitedKeeps(inside: Inside, s: string, rest: string)
    requires AfterConst(rest) && Delimited(inside, s).closed && Sound(inside)
    ensures Delimited(inside, s + rest) == Delimited(inside, s)
    decreases |s|
  {
    var m := Next(inside, s);
    assert s + rest != "";
    NextKeeps(inside, s, rest);
    Moves(inside, s);
    if m.Go? {
      assert (s + rest)[m.n..] == s[m.n..] + rest;
      DelimitedKeeps(m.inside, s[m.n..], rest);
    }
  }

  lemma NextKeeps(inside: Inside, s: string, rest: string)
    requires s != "" && AfterConst(rest) && Delimited(inside, s).closed && Sound(inside)
    ensures Next(inside, s + rest) == Next(inside, s)
  {
    var t := s + rest;
    assert t[0] == s[0] && (|s| > 1 ==> t[1] == s[1]);
    if inside.Dollars? {
      DollarsFit(inside.delimiter, s);
      assert t[..|inside.delimiter|] == s[..|inside.delimiter|];
    } else if |s| == 1 {
      assert rest != "" ==> t[1] == '$';
      assert s[1..] == "" && !Delimited(inside, "").closed;
    }
  }

  lemma {:induction false} DollarsFit(delimiter: string, s: string)
    requires Delimited(Dollars(delimiter), s).closed
    ensures |delimiter| <= |s|
    decreases |s|
  {
    if !(delimiter <= s) {
      DollarsFit(delimiter, s[1..]);
    }
  }

  /** A step on unclosed text is the same with more after it, or goes beyond it. */
  lemma NextGrows(inside: Inside, s: string, rest: string)
    requires s != "" && rest != "" && rest[0] == '$' && Next(inside, s).Go?
    ensures Next(inside, s + rest) == Next(inside, s) || Next(inside, s + rest).n > |s|
  {
    var t := s + rest;
    assert t[0] == s[0] && (|s| > 1 ==> t[1] == s[1]) && (|s| == 1 ==> t[1] == '$');
    assert inside.Dollars? && |inside.delimiter| <= |s| ==> t[..|inside.delimiter|] == s[..|inside.delimiter|];
  }

  lemma {:induction false} DelimitedGrows(inside: Inside, s: string, rest: string)
    requires rest != "" && rest[0] == '$' && !Delimited(inside, s).closed && Sound(inside)
    ensures Delimited(inside, s + rest).len > |s|
    decreases |s|
  {
    var t := s + rest;
    if s == "" {
      assert t == rest;
      Moves(inside, t);
    } else {
      var m := Next(inside, s);
      NextGrows(inside, s, rest);
      Moves(inside, s);
      if Next(inside, t) == m {
        assert t[m.n..] == s[m.n..] + rest;
        DelimitedGrows(m.inside, s[m.n..], rest);
      }
      hide Next;
    }
  }

  lemma Moves(inside: Inside, s: string)
    requires s != "" && Sound(inside)
    ensures Next(inside, s).n > 0 && (Next(inside, s).Go? ==> Sound(Next(inside, s).inside))
  {}

  // ----- tokens and what follows -----

  lemma DelimitedTokenKeeps(c: string, rest: string, n: nat, inside: Inside)
    requires AfterConst(rest) && 0 < n <= |c| && !DelimitedToken(c, n, inside).open && Sound(inside)
    ensures DelimitedToken(c + rest, n, inside) == DelimitedToken(c, n, inside)
  {
    var s, e := c + rest, Delimited(inside, c[n..]);
    assert s[n..] == c[n..] + rest;
    DelimitedKeeps(inside, c[n..], rest);
    assert s[..n + e.len] == c[..n + e.len];
  }

  lemma DelimitedTokenGrows(c: string, rest: string, n: nat, inside: Inside)
    requires rest != "" && rest[0] == '$' && 0 < n <= |c| && DelimitedToken(c, n, inside).open && Sound(inside)
    ensures DelimitedToken(c + rest, n, inside).len > |c|
    ensures DelimitedToken(c + rest, n, inside).token != DelimitedToken(c, n, inside).token
  {
    assert (c + rest)[n..] == c[n..] + rest;
    DelimitedGrows(inside, c[n..], rest);
  }

  lemma {:induction false} IdentRunAppend(c: string, rest: string)
    ensures IdentRun(c + rest) == if IdentRun(c) < |c| then IdentRun(c) else |c| + IdentRun(rest)
  {
    if c == "" {
      assert c + rest == rest;
    } else {
      assert (c + rest)[1..] == c[1..] + rest;
      IdentRunAppend(c[1..], rest);
    }
  }

  lemma {:induction false} DigitRunAppend(c: string, rest: string)
    ensures DigitRun(c + rest) == if DigitRun(c) < |c| then DigitRun(c) else |c| + DigitRun(rest)
  {
    if c == "" {
      assert c + rest == rest;
    } else {
      assert (c + rest)[1..] == c[1..] + rest;
      DigitRunAppend(c[1..], rest);
    }
  }

  lemma {:induction false} TagRunAppend(c: string, rest: string)
    ensures TagRun(c + rest) == if TagRun(c) < |c| then TagRun(c) else |c| + TagRun(rest)
  {
    if c == "" {
      assert c + rest == rest;
    } else {
      assert (c + rest)[1..] == c[1..] + rest;
      TagRunAppend(c[1..], rest);
    }
  }

  /** The first characters tell what kind of token starts. */
  lemma SameStart(c: string, rest: string)
    requires c != "" && AfterConst(rest)
    ensures c + rest != "" && StartOf(c + rest) == StartOf(c)
  {
    var s := c + rest;
    assert s[0] == c[0] && (|c| > 1 ==> s[1] == c[1]) && (|c| == 1 && rest != "" ==> s[1] == '$');
  }

  /** A first token that is not open is the same whatever follows. */
  lemma FirstKeeps(c: string, rest: string)
    requires c != "" && AfterConst(rest) && !First(c).open
    ensures c + rest != "" && First(c + rest) == First(c)
  {
    hide DelimitedToken, FirstDollar, StartOf, IdentRun;
    var s := c + rest;
    SameStart(c, rest);
    assert s[0] == c[0];
    match StartOf(c)
    case Word =>
      IdentRunAppend(c, rest);
      assert s[..IdentRun(c)] == c[..IdentRun(c)];
    case Opening(n, inside) => DelimitedTokenKeeps(c, rest, n, inside);
    case Dollar => DollarKeeps(c, rest);
    case Single =>
  }

  lemma DollarKeeps(c: string, rest: string)
    requires c != "" && c[0] == '$' && AfterConst(rest) && !FirstDollar(c).open
    ensures c + rest != "" && (c + rest)[0] == '$' && FirstDollar(c + rest) == FirstDollar(c)
  {
    hide FirstTag, FirstParam, DigitRun;
    DollarText(c, rest);
    if DigitRun(c[1..]) > 0 {
      ParamKeeps(c, rest);
    } else {
      NoDigits(c[1..], rest);
      TagKeeps(c, rest, 1 + TagRun(c[1..]));
    }
  }

  /** Without digits after the `$` the tag is the same, too. */
  lemma NoDigits(t: string, rest: string)
    requires AfterConst(rest) && DigitRun(t) == 0
    ensures DigitRun(t + rest) == 0 && TagRun(t + rest) == TagRun(t)
  {
    DigitRunAppend(t, rest);
    TagRunAppend(t, rest);
  }

  lemma TagKeeps(c: string, rest: string, n: nat)
    requires 0 < n <= |c| && AfterConst(rest) && !FirstTag(c, n).open
    ensures n < |c| && FirstTag(c + rest, n) == FirstTag(c, n)
  {
    var s := c + rest;
    assert n < |c| ==> s[n] == c[n] && s[..n + 1] == c[..n + 1] && s[..n] == c[..n];
    if n < |c| && c[n] == '$' {
      DelimitedTokenKeeps(c, rest, n + 1, Dollars(c[..n + 1]));
    }
    hide DelimitedToken;
  }

  lemma ParamKeeps(c: string, rest: string)
    requires c != "" && c[0] == '$' && AfterConst(rest) && DigitRun(c[1..]) > 0
    ensures c + rest != "" && (c + rest)[0] == '$' && FirstDollar(c + rest) == FirstDollar(c)
  {
    var t, n := c[1..], DigitRun(c[1..]);
    var digits, after := t[..n], t[n..];
    DollarText(c, rest);
    DigitRunAppend(t, rest);
    DigitsKept(t, rest, n);
    ParamTokenKeeps(digits, after, rest);
    hide *;
    DollarDigits(c, t, digits, after);
    DollarDigits(c + rest, t + rest, digits, after + rest);
  }

  lemma DollarText(c: string, rest: string)
    requires c != "" && c[0] == '$'
    ensures c + rest != "" && (c + rest)[0] == '$' && (c + rest)[1..] == c[1..] + rest
  {}

  lemma DigitsKept(t: string, rest: string, n: nat)
    requires AfterConst(rest) && n == DigitRun(t) > 0
    ensures DigitRun(t + rest) == n && (t + rest)[..n] == t[..n] && (t + rest)[n..] == t[n..] + rest
    ensures AllDigits(t[..n]) && |t[..n]| == n
  {
    DigitRunAppend(t, rest);
  }

  lemma DollarDigits(s: string, t: string, digits: string, after: string)
    requires s != "" && s[0] == '$' && s[1..] == t && AllDigits(digits) && DigitRun(t) == |digits| > 0
    requires t[..|digits|] == digits && t[|digits|..] == after
    ensures FirstDollar(s) == FirstParam(digits, after)
  {
    hide FirstParam, FirstTag, DigitRun;
  }

  lemma ParamTokenKeeps(digits: string, s: string, rest: string)
    requires AllDigits(digits) && AfterConst(rest)
    ensures FirstParam(digits, s + rest) == FirstParam(digits, s)
  {
    if s == "" {
      assert s + rest == rest;
    } else {
      assert (s + rest)[..1] == s[..1];
    }
  }

  /** An open one is another token when a dollar sign follows. */
  lemma FirstGrows(c: string, rest: string)
    requires c != "" && rest != "" && rest[0] == '$' && First(c).open
    ensures c + rest != "" && First(c + rest).token != First(c).token
  {
    hide Delimited, FirstDollar, StartOf;
    SameStart(c, rest);
    match StartOf(c)
    case Word =>
      IdentRunAppend(c, rest);
      assert IdentRun(rest) > 0;
    case Opening(n, inside) => DelimitedTokenGrows(c, rest, n, inside);
    case Dollar => DollarGrows(c, rest);
  }

  lemma DollarGrows(c: string, rest: string)
    requires c != "" && c[0] == '$' && rest != "" && rest[0] == '$' && FirstDollar(c).open
    ensures c + rest != "" && (c + rest)[0] == '$' && FirstDollar(c + rest).token != FirstDollar(c).token
  {
    hide FirstTag, FirstParam, DigitRun;
    DollarText(c, rest);
    NoDigits(c[1..], rest);
    TagGrows(c, rest, 1 + TagRun(c[1..]));
  }

  lemma TagGrows(c: string, rest: string, n: nat)
    requires 0 < n <= |c| && rest != "" && rest[0] == '$' && FirstTag(c, n).open
    ensures FirstTag(c + rest, n).token != FirstTag(c, n).token
  {
    var s := c + rest;
    if n < |c| {
      assert s[n] == c[n] && s[..n + 1] == c[..n + 1];
      DelimitedTokenGrows(c, rest, n + 1, Dollars(c[..n + 1]));
    } else {
      assert s[n] == '$';
    }
    hide Delimited;
  }

  // ----- texts and what follows -----

  /** A complete text is read as its own tokens, whatever placeholder follows. */
  lemma {:induction false} ScanAppend(c: string, rest: string)
    requires AfterConst(rest) && (rest == "" || Complete(c))
    ensures Scan(c + rest) == Scan(c) + Scan(rest)
    decreases |c|
  {
    if rest == "" {
      assert c + rest == c && Scan(c) + Scan(rest) == Scan(c);
    } else if c == "" {
      assert c + rest == rest;
    } else {
      hide First;
      var n := First(c).len;
      FirstKeeps(c, rest);
      assert (c + rest)[n..] == c[n..] + rest;
      ScanAppend(c[n..], rest);
      var t, more := [First(c).token], Scan(c[n..]);
      assert Scan(c) == t + more && Scan(c + rest) == t + Scan(c[n..] + rest);
      Assoc(t, more, Scan(rest));
    }
  }

  /** The token lists differ at a place that the second one has. */
  ghost predicate DifferIn(a: seq<Token>, b: seq<Token>) {
    exists p | 0 <= p < |b| :: p < |a| ==> a[p] != b[p]
  }

  lemma DifferLater(t: Token, u: Token, a: seq<Token>, b: seq<Token>)
    requires t != u || DifferIn(a, b)
    ensures DifferIn([t] + a, [u] + b)
  {
    if t != u {
      assert ([t] + a)[0] == t && ([u] + b)[0] == u;
    } else {
      var p :| 0 <= p < |b| && (p < |a| ==> a[p] != b[p]);
      assert ([u] + b)[p + 1] == b[p];
      assert p < |a| ==> ([t] + a)[p + 1] == a[p];
    }
  }

  lemma NotPrefix(a: seq<Token>, b: seq<Token>, more: seq<Token>)
    requires DifferIn(a, b)
    ensures a != b + more
  {
    var p :| 0 <= p < |b| && (p < |a| ==> a[p] != b[p]);
    assert (b + more)[p] == b[p];
  }

  /** A text that is left open, or has a placeholder of its own, is not read as its words. */
  lemma {:induction false} ScanDiffers(c: string, rest: string)
    requires AfterConst(rest) && (!NoParam(c) || (!Complete(c) && rest != ""))
    ensures DifferIn(Scan(c + rest), Words(c))
    decreases |c|
  {
    var f, s := First(c), c + rest;
    if f.open {
      assert c[f.len..] == "" && NoParam(c);
      FirstGrows(c, rest);
      DifferLater(First(s).token, Own(c), Scan(s[First(s).len..]), Words(c[f.len..]));
    } else {
      FirstKeeps(c, rest);
      assert s[f.len..] == c[f.len..] + rest;
      if !f.token.Param? {
        ScanDiffers(c[f.len..], rest);
      }
      DifferLater(f.token, Own(c), Scan(s[f.len..]), Words(c[f.len..]));
    }
    hide First;
  }

  lemma {:induction false} OwnWords(c: string)
    requires NoParam(c)
    ensures Words(c) == Scan(c)
    decreases |c|
  {
    if c != "" {
      OwnWords(c[First(c).len..]);
    }
    hide First;
  }

  /** A placeholder is one token with its number, unless what follows goes on with it. */
  lemma ParamFirst(d: string, rest: string)
    requires AllDigits(d) && d != "" && DecimalValue(d) > 0
    ensures var s, tokens, p := "$" + d + rest, Scan("$" + d + rest), Param(DecimalValue(d));
            && (!Continues(rest) ==> tokens == [p] + Scan(rest))
            && (Continues(rest) ==> DifferIn(tokens, [p]))
  {
    var s, p := "$" + d + rest, Param(DecimalValue(d));
    var more, after := rest[..DigitRun(rest)], rest[DigitRun(rest)..];
    var f := FirstParam(d + more, after);
    ParamParts(d, rest);
    ValueGrows(d, more);
    ScanFirst(s, f);
    if Continues(rest) {
      assert f.token != p;
      assert [p][0] == p && Scan(s)[0] == f.token;
    } else {
      assert d + more == d && after == rest;
      assert s[|d| + 1..] == rest by { CutParam(d, rest); }
    }
    hide *;
  }

  lemma ScanFirst(s: string, f: Lexeme)
    requires s != "" && First(s) == f
    ensures Scan(s) == [f.token] + Scan(s[f.len..])
  {}

  lemma CutParam(d: string, rest: string)
    ensures ("$" + d + rest)[|d| + 1..] == rest
  {}

  lemma ParamParts(d: string, rest: string)
    requires AllDigits(d) && d != ""
    ensures var s, n := "$" + d + rest, DigitRun(rest);
            && AllDigits(d + rest[..n]) && s != ""
            && First(s) == FirstParam(d + rest[..n], rest[n..])
  {
    var s, t, n := "$" + d + rest, d + rest, DigitRun(rest);
    ParamText(d, rest, n);
    AllDigitsRun(d);
    DigitRunAppend(d, rest);
    hide *;
    DollarDigits(s, t, d + rest[..n], rest[n..]);
    AtDollar(s);
  }

  lemma ParamText(d: string, rest: string, n: nat)
    requires AllDigits(d) && d != "" && n == DigitRun(rest)
    ensures var s, t := "$" + d + rest, d + rest;
            && s != "" && s[0] == '$' && s[1..] == t && t[..|d| + n] == d + rest[..n] && t[|d| + n..] == rest[n..]
            && AllDigits(d + rest[..n]) && |d + rest[..n]| == |d| + n > 0
  {}

  lemma AllDigitsRun(d: string)
    requires AllDigits(d)
    ensures DigitRun(d) == |d|
  {
    assert DigitRun(d) < |d| ==> IsDigit(d[DigitRun(d)]);
  }

  lemma AtDollar(s: string)
    requires s != "" && s[0] == '$'
    ensures First(s) == FirstDollar(s)
  {
    hide FirstDollar;
  }

  lemma {:induction false} ValueGrows(d: string, e: string)
    requires AllDigits(d) && AllDigits(e)
    ensures AllDigits(d + e)
    ensures DecimalValue(d + e) >= DecimalValue(d)
    ensures e != "" && DecimalValue(d) > 0 ==> DecimalValue(d + e) > DecimalValue(d)
  {
    if e == "" {
      assert d + e == d;
    } else {
      var n := |e| - 1;
      assert (d + e)[..|d + e| - 1] == d + e[..n];
      ValueGrows(d, e[..n]);
    }
  }

  // ----- texts in full -----

  /** A doubled quote and what looks like a placeholder belong to the string; a placeholder follows it. */
  lemma StringInFull()
    ensures Scan("'a''$1'$2") == [Quoted("'a''$1'"), Param(2)]
  {
    FirstIsString();
    PlaceholderInFull();
    hide First;
    assert "'a''$1'$2"[7..] == "$2";
  }

  lemma FirstIsString()
    ensures First("'a''$1'$2") == Lexeme(Quoted("'a''$1'"), 7, false)
  {
    var s := "'a''$1'$2";
    QuoteInFull();
    hide Delimited;
    assert s[1..] == "a''$1'$2" && s[..7] == "'a''$1'";
  }

  lemma QuoteInFull()
    ensures Delimited(Quotes('\''), "a''$1'$2") == Extent(6, true)
  {
    var q := Quotes('\'');
    assert "a''$1'$2"[1..] == "''$1'$2" && "''$1'$2"[2..] == "$1'$2" && "$1'$2"[1..] == "1'$2" && "1'$2"[1..] == "'$2";
    assert Delimited(q, "'$2") == Extent(1, true);
    assert Delimited(q, "1'$2") == Extent(2, true);
    assert Delimited(q, "$1'$2") == Extent(3, true);
    assert Delimited(q, "''$1'$2") == Extent(5, true);
  }

  lemma PlaceholderInFull()
    ensures Scan("$2") == [Param(2)]
  {
    assert "$2"[1..] == "2" && "2"[..1] == "2" && "2"[1..] == "" && "$2"[2..] == "";
    assert DigitRun("2") == 1 && DecimalValue("2") == 2 by { assert "2"[..0] == ""; }
    assert First("$2") == Lexeme(Param(2), 2, false);
  }
}
