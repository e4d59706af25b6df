/**
 The template compiler of muggin.c: a context with the remaining input, the current indentation and the
 two string pools, advanced in place. Each method does what the function of the same name in `Template`
 says, with every string of the resulting tree replaced by an id that denotes it in the pools.
 */
module Muggin {
  import opened Strs
  import opened Template
  import opened StringPools

  // ----- what a tree of ids denotes -----

  /** A pool that has grown: every id still denotes the string it denoted. */
  predicate Extends(a: seq<string>, b: seq<string>) {
    |a| <= |b| && forall i | 0 <= i < |a| :: a[i] == b[i]
  }

  predicate IdOf(id: nat, s: string, pool: seq<string>) {
    id < |pool| && pool[id] == s
  }

  predicate ItemDenotes(c: Content<nat>, t: Content<string>, cs: seq<string>, ns: seq<string>) {
    match (c, t)
    case (Const(id), Const(s)) => IdOf(id, s, cs)
    case (Name(id), Name(s)) => IdOf(id, s, ns)
    case _ => false
  }

  predicate ItemsDenote(c: seq<Content<nat>>, t: seq<Content<string>>, cs: seq<string>, ns: seq<string>) {
    |c| == |t| && forall i | 0 <= i < |c| :: ItemDenotes(c[i], t[i], cs, ns)
  }

  predicate ContentsDenote(c: Contents<nat>, t: Contents<string>, cs: seq<string>, ns: seq<string>) {
    ItemsDenote(c.items, t.items, cs, ns) && c.separator == t.separator
  }

  predicate AttrDenotes(a: Attr<nat>, t: Attr<string>, cs: seq<string>, ns: seq<string>) {
    && IdOf(a.name, t.name, cs)
    && match (a.value, t.value)
       case (Constant(id), Constant(s)) => IdOf(id, s, cs)
       case (Mixed(c), Mixed(u)) => ContentsDenote(c, u, cs, ns)
       case _ => false
  }

  predicate AttrsDenote(a: seq<Attr<nat>>, t: seq<Attr<string>>, cs: seq<string>, ns: seq<string>) {
    |a| == |t| && forall i | 0 <= i < |a| :: AttrDenotes(a[i], t[i], cs, ns)
  }

  /** Resolving every id of the tree through the pools gives the tree of strings. */
  predicate NodeDenotes(n: Node<nat>, t: Node<string>, cs: seq<string>, ns: seq<string>) {
    match (n, t)
    case (Text(c), Text(u)) => ContentsDenote(c, u, cs, ns)
    case (Element(tag, attrs, children, isVoid), Element(tag', attrs', children', isVoid')) =>
      && IdOf(tag, tag', cs) && isVoid == isVoid' && AttrsDenote(attrs, attrs', cs, ns)
      && |children| == |children'|
      && forall i | 0 <= i < |children| :: NodeDenotes(children[i], children'[i], cs, ns)
    case _ => false
  }

  predicate NodesDenote(n: seq<Node<nat>>, t: seq<Node<string>>, cs: seq<string>, ns: seq<string>) {
    |n| == |t| && forall i | 0 <= i < |n| :: NodeDenotes(n[i], t[i], cs, ns)
  }

  lemma ContentsDenoteLater(c: Contents<nat>, t: Contents<string>, cs: seq<string>, ns: seq<string>, cs': seq<string>,
                            ns': seq<string>)
    requires ContentsDenote(c, t, cs, ns) && Extends(cs, cs') && Extends(ns, ns')
    ensures ContentsDenote(c, t, cs', ns')
  {
    forall i | 0 <= i < |c.items|
      ensures ItemDenotes(c.items[i], t.items[i], cs', ns')
    {
      assert ItemDenotes(c.items[i], t.items[i], cs, ns);
    }
  }

  lemma AttrsDenoteLater(a: seq<Attr<nat>>, t: seq<Attr<string>>, cs: seq<string>, ns: seq<string>, cs': seq<string>,
                         ns': seq<string>)
    requires AttrsDenote(a, t, cs, ns) && Extends(cs, cs') && Extends(ns, ns')
    ensures AttrsDenote(a, t, cs', ns')
  {
    forall i | 0 <= i < |a|
      ensures AttrDenotes(a[i], t[i], cs', ns')
    {
      assert AttrDenotes(a[i], t[i], cs, ns);
      if a[i].value.Mixed? {
        ContentsDenoteLater(a[i].value.contents, t[i].value.contents, cs, ns, cs', ns');
      }
    }
  }

  /** Ids keep their meaning: what a tree denotes never changes while the pools grow. */
  lemma {:induction false} NodeDenotesLater(n: Node<nat>, t: Node<string>, cs: seq<string>, ns: seq<string>,
                                            cs': seq<string>, ns': seq<string>)
    requires NodeDenotes(n, t, cs, ns) && Extends(cs, cs') && Extends(ns, ns')
    ensures NodeDenotes(n, t, cs', ns')
  {
    match n
    case Text(c) => ContentsDenoteLater(c, t.contents, cs, ns, cs', ns');
    case Element(_, attrs, children, _) =>
      AttrsDenoteLater(attrs, t.attributes, cs, ns, cs', ns');
      forall i | 0 <= i < |children|
        ensures NodeDenotes(children[i], t.children[i], cs', ns')
      {
        NodeDenotesLater(children[i], t.children[i], cs, ns, cs', ns');
      }
  }

  lemma NodesDenoteLater(n: seq<Node<nat>>, t: seq<Node<string>>, cs: seq<string>, ns: seq<string>, cs': seq<string>,
                         ns': seq<string>)
    requires NodesDenote(n, t, cs, ns) && Extends(cs, cs') && Extends(ns, ns')
    ensures NodesDenote(n, t, cs', ns')
  {
    forall i | 0 <= i < |n|
      ensures NodeDenotes(n[i], t[i], cs', ns')
    {
      NodeDenotesLater(n[i], t[i], cs, ns, cs', ns');
    }
  }

  // ----- the compiler -----

  /** The two returns of the C functions, an error report, and a scan that never ends. */
  datatype Status = Yes | No | Aborted | Hung

  class Compiler {
    const constants: StringPool
    const names: StringPool
    var input: string
    var indent: nat

    ghost predicate Valid()
      reads this, constants, names
    {
      constants.Valid() && names.Valid() && constants != names && NulFree(input)
    }

    ghost function Cs(): seq<string>
      reads this, constants, names
      requires Valid()
    {
      constants.Contents()
    }

    ghost function Ns(): seq<string>
      reads this, constants, names
      requires Valid()
    {
      names.Contents()
    }

    constructor (source: string, hash: string -> nat)
      requires NulFree(source)
      ensures Valid() && input == source && indent == 0 && fresh(constants) && fresh(names)
      ensures Cs() == [] && Ns() == []
    {
      constants := new StringPool(hash);
      names := new StringPool(hash);
      input := source;
      indent := 0;
    }

    /** muggin_use_constant */
    method UseConstant(s: string) returns (id: nat)
      requires Valid() && NulFree(s) && s != ""
      modifies this`input, constants, names
      ensures Valid() && indent == old(indent)
      ensures Extends(old(Cs()), Cs()) && Extends(old(Ns()), Ns())
      ensures input == old(input) && IdOf(id, s, Cs())
    {
      hide PoolOk, Strings;
      var r := constants.Use(s);
      id := r.value;
    }

    /** muggin_use_name: a name may be empty, which the pool reports. */
    method UseName(s: string) returns (id: Option<nat>)
      requires Valid() && NulFree(s)
      modifies this`input, constants, names
      ensures Valid() && indent == old(indent)
      ensures Extends(old(Cs()), Cs()) && Extends(old(Ns()), Ns())
      ensures input == old(input)
      ensures id.None? <==> s == ""
      ensures id.Some? ==> IdOf(id.value, s, Ns())
    {
      hide PoolOk, Strings;
      id := names.Use(s);
    }

    /** muggin_read_indent */
    method ReadIndent() returns (width: nat)
      requires Valid()
      modifies this`input
      ensures Valid() && indent == old(indent)
      ensures Extends(old(Cs()), Cs()) && Extends(old(Ns()), Ns())
      ensures width == IndentWidth(old(input)) && input == SkipIndent(old(input))
      ensures Cs() == old(Cs()) && Ns() == old(Ns())
    {
      hide PoolOk, Strings;
      width := 0;
      while true
        invariant Valid() && NulFree(input)
        invariant width + IndentWidth(input) == IndentWidth(old(input)) && SkipIndent(input) == SkipIndent(old(input))
        modifies this`input
        decreases |input|
      {
        if |input| == 0 { return; }
        if input[0] == ' ' {
          width := width + 1;
        } else if input[0] == '\t' {
          width := width + 8;
        } else {
          return;
        }
        input := input[1..];
      }
    }

    /** muggin_check_indent: consumes the indentation when it is the expected one. */
    method CheckIndent(expected: nat) returns (ok: bool)
      requires Valid()
      modifies this`input
      ensures Valid() && indent == old(indent)
      ensures Extends(old(Cs()), Cs()) && Extends(old(Ns()), Ns())
      ensures ok == (IndentWidth(old(input)) == expected)
      ensures input == if ok then SkipIndent(old(input)) else old(input)
      ensures Cs() == old(Cs()) && Ns() == old(Ns())
    {
      hide PoolOk, Strings, IndentWidth, SkipIndent;
      var orig := input;
      var actual := ReadIndent();
      ok := expected == actual;
      if !ok { input := orig; }
    }

    /** muggin_read_constant */
    method ReadConstant(set_: Charset) returns (ok: bool, ref: nat)
      requires Valid()
      modifies this`input, constants, names
      ensures Valid() && indent == old(indent)
      ensures Extends(old(Cs()), Cs()) && Extends(old(Ns()), Ns())
      ensures var n := RunLength(old(input), set_, true);
              && ok == (n > 0) && input == old(input)[n..]
              && (ok ==> IdOf(ref, old(input)[..n], Cs()))
    {
      hide PoolOk, Strings;
      var orig := input;
      var len := 0;
      var first := true;
      while |input| > 0 && ValidChar(set_, input[0], first)
        invariant Valid()
        invariant first == (len == 0) && len <= |orig| && input == orig[len..]
        invariant RunLength(orig, set_, true) == len + RunLength(input, set_, first)
        modifies this`input
        decreases |input|
      {
        first := false;
        len := len + 1;
        input := Drop(input, 1);
      }
      ok, ref := len > 0, 0;
      if ok {
        ref := UseConstant(Take(orig, len));
      }
    }

    /** muggin_contents_add_str for a constant. */
    method AddConst(items: seq<Content<nat>>, text: string, ghost texts: seq<Content<string>>)
      returns (r: seq<Content<nat>>)
      requires Valid() && NulFree(text) && text != "" && ItemsDenote(items, texts, Cs(), Ns())
      modifies this`input, constants, names
      ensures Valid() && indent == old(indent)
      ensures Extends(old(Cs()), Cs()) && Extends(old(Ns()), Ns())
      ensures input == old(input)
      ensures ItemsDenote(r, texts + [Const(text)], Cs(), Ns())
    {
      hide PoolOk, Strings;
      var id := UseConstant(text);
      ItemsDenoteLater(items, texts, old(Cs()), old(Ns()), Cs(), Ns());
      r := items + [Const(id)];
    }

    /** muggin_contents_add_str for a name. */
    method AddName(items: seq<Content<nat>>, name: string, ghost texts: seq<Content<string>>)
      returns (ok: bool, r: seq<Content<nat>>)
      requires Valid() && NulFree(name) && ItemsDenote(items, texts, Cs(), Ns())
      modifies this`input, constants, names
      ensures Valid() && indent == old(indent)
      ensures Extends(old(Cs()), Cs()) && Extends(old(Ns()), Ns())
      ensures input == old(input)
      ensures ok <==> name != ""
      ensures ok ==> ItemsDenote(r, texts + [Name(name)], Cs(), Ns())
    {
      hide PoolOk, Strings;
      var id := UseName(name);
      if id.None? { return false, []; }
      ItemsDenoteLater(items, texts, old(Cs()), old(Ns()), Cs(), Ns());
      r := items + [Name(id.value)];
      ok := true;
    }

    /** The text before a reference, unless there is none. */
    method AddBefore(text: string, items: seq<Content<nat>>, ghost texts: seq<Content<string>>)
      returns (r: seq<Content<nat>>)
      requires Valid() && NulFree(text) && ItemsDenote(items, texts, Cs(), Ns())
      modifies this`input, constants, names
      ensures Valid() && indent == old(indent)
      ensures Extends(old(Cs()), Cs()) && Extends(old(Ns()), Ns())
      ensures input == old(input)
      ensures ItemsDenote(r, texts + PlainText(text), Cs(), Ns())
    {
      hide StringPool.Valid, NulFree, ItemsDenote;
      r := items;
      if |text| > 0 {
        r := AddConst(items, text, texts);
      } else {
        AppendNothing(texts);
      }
    }

    /** One reference of muggin_contents_from_str, with the text before it. */
    method ReadReference(s: string, idx: nat, items: seq<Content<nat>>, ghost texts: seq<Content<string>>)
      returns (ok: bool, r: seq<Content<nat>>, rest: string, ghost more: seq<Content<string>>)
      requires Valid() && NulFree(s) && ItemsDenote(items, texts, Cs(), Ns())
      requires IndexOf(s, '{') == idx && CharAt(s, idx + 1) == '{'
      modifies this`input, constants, names
      ensures Valid() && indent == old(indent)
      ensures Extends(old(Cs()), Cs()) && Extends(old(Ns()), Ns())
      ensures input == old(input)
      ensures !ok ==> ParseContents(s) == Abort
      ensures ok ==> && ItemsDenote(r, texts + more, Cs(), Ns()) && NulFree(rest) && |rest| < |s|
                     && ParseContents(s) == Prepend(more, ParseContents(rest))
    {
      hide Compiler.Valid, IndexOf, CharAt, Drop, LTrim, RTrim, NulFree, ItemsDenote, ParseContents;
      NulFreeParts(s, idx);
      r := AddBefore(s[..idx], items, texts);
      more, rest := PlainText(s[..idx]), "";
      var t := LTrim(Drop(s, idx + 2));
      var j := StrIndexOf(t, '}');
      UnclosedReference(s, idx, t, j);
      ok := false;
      if j != -1 && CharAt(t, j + 1) == '}' {
        NulFreeParts(t, j);
        var name := RTrim(t[..j]);
        ok, r := AddName(r, name, texts + more);
        rest := Drop(t, j + 2);
        ClosedReference(s, idx, t, j, name, rest);
        AppendMore(texts, more, Name(name));
        more := more + [Name(name)];
      }
    }

    /** muggin_contents_from_str */
    method ContentsFromStr(text: string) returns (st: Status, items: seq<Content<nat>>)
      requires Valid() && NulFree(text)
      modifies this`input, constants, names
      ensures Valid() && indent == old(indent)
      ensures Extends(old(Cs()), Cs()) && Extends(old(Ns()), Ns())
      ensures input == old(input)
      ensures match ParseContents(text)
              case Got(texts, _) => st == Yes && ItemsDenote(items, texts, Cs(), Ns())
              case _ => st == Aborted
    {
      hide Compiler.Valid, IndexOf, CharAt, NulFree, ParseContents, Prepend;
      var s := text;
      items := [];
      ghost var texts: seq<Content<string>> := [];
      PrependNothing(ParseContents(s));
      while true
        invariant Valid() && indent == old(indent)
        invariant Extends(old(Cs()), Cs()) && Extends(old(Ns()), Ns())
        invariant input == old(input) && NulFree(s)
        invariant ItemsDenote(items, texts, Cs(), Ns())
        invariant ParseContents(text) == Prepend(texts, ParseContents(s))
        decreases |s|
      {
        hide ItemsDenote;
        PlainRest(s);
        var idx := StrIndexOf(s, '{');
        if idx != -1 && CharAt(s, idx + 1) == '{' {
          var ok, rest;
          ghost var more;
          ok, items, rest, more := ReadReference(s, idx, items, texts);
          if !ok {
            return Aborted, [];
          }
          PrependTwice(texts, more, ParseContents(rest));
          texts := texts + more;
          s := rest;
        } else {
          if |s| > 0 {
            items := AddConst(items, s, texts);
          }
          return Yes, items;
        }
      }
    }

    /** ctx->input = s */
    method Advance(s: string)
      requires Valid() && NulFree(s)
      modifies this`input
      ensures Valid() && indent == old(indent)
      ensures Extends(old(Cs()), Cs()) && Extends(old(Ns()), Ns())
      ensures input == s && Cs() == old(Cs()) && Ns() == old(Ns())
    {
      hide PoolOk, Strings;
      input := s;
    }

    lemma NulFreeInput()
      requires Valid()
      ensures NulFree(input)
    {}

    /** The quoted value of an attribute, from the quote that opens it. */
    method ReadQuoted(name: nat, ghost text: string) returns (st: Status, attr: Attr<nat>)
      requires Valid() && IdOf(name, text, Cs()) && input != "" && input[0] == '"'
      modifies this`input, constants, names
      ensures Valid() && indent == old(indent)
      ensures Extends(old(Cs()), Cs()) && Extends(old(Ns()), Ns())
      ensures StepDone(ParseValue(text, old(input)), st, input)
      ensures st == Yes ==> AttrDenotes(attr, ParseValue(text, old(input)).value, Cs(), Ns())
    {
      hide Compiler.Valid, ParseValue, ParseContents, SplitPoint, NulFree, IdOf, AttrDenotes, ItemsDenote;
      NulFreeInput();
      NulFreeCut(input, 1);
      QuotedValue(text, input);
      attr := Attr(name, Constant(0));
      Advance(Drop(input, 1));
      var ok, val, rest := StrSplitAt(input, "\"");
      if !ok { return No, attr; }
      NulFreeSplit(input, "\"");
      var items;
      st, items := ContentsFromStr(val);
      if st == Yes {
        attr := Attr(name, Mixed(Contents(items, '\0')));
        MixedDenotes(name, text, items, ParseContents(val).value, old(Cs()), Cs(), Ns());
        Advance(rest);
      }
    }

    /** The unquoted value of an attribute. */
    method ReadUnquoted(name: nat, ghost text: string) returns (st: Status, attr: Attr<nat>)
      requires Valid() && IdOf(name, text, Cs()) && CharAt(input, 0) != '"'
      modifies this`input, constants, names
      ensures Valid() && indent == old(indent)
      ensures Extends(old(Cs()), Cs()) && Extends(old(Ns()), Ns())
      ensures StepDone(ParseValue(text, old(input)), st, input)
      ensures st == Yes ==> AttrDenotes(attr, ParseValue(text, old(input)).value, Cs(), Ns())
    {
      hide Compiler.Valid, ParseValue, ParseContents, SplitPoint, NulFree, IdOf, AttrDenotes, ItemsDenote;
      attr := Attr(name, Constant(0));
      var len := 0;
      while len < |input| && input[len] !in UNQUOTED_END
        invariant 0 <= len <= |input|
        invariant forall k | 0 <= k < len :: input[k] !in UNQUOTED_END
      {
        len := len + 1;
      }
      SplitPointUnique(input, UNQUOTED_END, len);
      UnquotedValue(text, input);
      // past the end str_char_at yields NUL, which is no terminator either
      if len == |input| { return Hung, attr; }
      var val, end := Take(input, len), input[len];
      NulFreeInput();
      NulFreeCut(input, len);
      NulFreeCut(input, len + 1);
      Advance(Drop(input, if end == ')' then len else len + 1));
      var items;
      st, items := ContentsFromStr(val);
      if st == Yes {
        attr := Attr(name, Mixed(Contents(items, '\0')));
        MixedDenotes(name, text, items, ParseContents(val).value, old(Cs()), Cs(), Ns());
      }
    }

    /** muggin_read_attribute */
    method ReadAttribute() returns (st: Status, attr: Attr<nat>)
      requires Valid()
      modifies this`input, constants, names
      ensures Valid() && indent == old(indent)
      ensures Extends(old(Cs()), Cs()) && Extends(old(Ns()), Ns())
      ensures StepDone(ParseAttribute(old(input)), st, input)
      ensures st == Yes ==> AttrDenotes(attr, ParseAttribute(old(input)).value, Cs(), Ns())
    {
      hide Compiler.Valid, LTrim, RunLength, ParseValue, AttrDenotes, IdOf, NulFree;
      st, attr := No, Attr(0, Constant(0));
      NulFreeInput();
      NulFreeTrim(input);
      Advance(LTrim(input));
      if CharAt(input, 0) == ')' { return; }
      ghost var s1 := input;
      var ok, name := ReadConstant(AttrChars);
      if !ok { return; }
      NulFreeInput();
      NulFreeTrim(input);
      Advance(LTrim(input));
      if CharAt(input, 0) != '=' { return; }
      NulFreeInput();
      NulFreeCut(input, 1);
      NulFreeTrim(Drop(input, 1));
      Advance(LTrim(Drop(input, 1)));
      if CharAt(input, 0) == '"' {
        st, attr := ReadQuoted(name, s1[..RunLength(s1, AttrChars, true)]);
      } else {
        st, attr := ReadUnquoted(name, s1[..RunLength(s1, AttrChars, true)]);
      }
    }

    /** The `#id` and `.class` loop of muggin_parse_node; the class buffer has 64 places. */
    method ReadMarks() returns (st: Status, id: seq<nat>, classes: seq<nat>)
      requires Valid()
      modifies this`input, constants, names
      ensures Valid() && indent == old(indent)
      ensures Extends(old(Cs()), Cs()) && Extends(old(Ns()), Ns())
      ensures StepDone(ParseMarks(old(input), Marks([], [])), st, input)
      ensures st == Yes ==> MarksDenote(id, classes, ParseMarks(old(input), Marks([], [])).value, Cs())
    {
      hide Compiler.Valid, RunLength, NulFree, ParseMarks;
      var classConstants := new nat[64];
      var count := 0;
      id, classes := [], [];
      ghost var m := Marks([], []);
      while true
        invariant Valid() && indent == old(indent)
        invariant Extends(old(Cs()), Cs()) && Extends(old(Ns()), Ns())
        invariant count <= 64 && fresh(classConstants) && classConstants.Length == 64
        invariant |m.id| <= 1 && |m.classes| <= MAX_CLASSES && MarksDenote(id, classConstants[..count], m, Cs())
        invariant ParseMarks(old(input), Marks([], [])) == ParseMarks(input, m)
        decreases |input|
      {
        hide MarksDenote;
        NulFreeInput();
        NulFreeCut(input, 1);
        ghost var s, cs := input, Cs();
        MarkStep(s, m);
        MarksCount(id, classConstants[..count], m, Cs());
        var c := CharAt(input, 0);
        if c == '#' {
          if |id| == 1 { return No, id, classes; }
          Advance(Drop(input, 1));
          ghost var s1 := input;
          var ok, ref := ReadConstant(TagChars);
          if !ok { return No, id, classes; }
          MarksDenoteId(id, classConstants[..count], m, cs, Cs(), ref, s1[..RunLength(s1, TagChars, true)]);
          id := [ref];
          m := m.(id := [s1[..RunLength(s1, TagChars, true)]]);
        } else if c == '.' {
          Advance(Drop(input, 1));
          ghost var s1 := input;
          var ok, ref := ReadConstant(TagChars);
          if !ok { return No, id, classes; }
          if count == 64 { return No, id, classes; }
          MarksDenoteClass(id, classConstants[..count], m, cs, Cs(), ref, s1[..RunLength(s1, TagChars, true)]);
          classConstants[count] := ref;
          count := count + 1;
          assert classConstants[..count] == classConstants[..count - 1] + [ref];
          m := m.(classes := m.classes + [s1[..RunLength(s1, TagChars, true)]]);
        } else {
          return Yes, id, classConstants[..count];
        }
      }
    }

    /** The attributes muggin_parse_node makes of the marks. */
    method MarkAttrs(id: seq<nat>, classes: seq<nat>, ghost m: Marks) returns (attrs: seq<Attr<nat>>)
      requires Valid() && |m.id| <= 1 && MarksDenote(id, classes, m, Cs())
      modifies this`input, constants, names
      ensures Valid() && indent == old(indent) && input == old(input)
      ensures Extends(old(Cs()), Cs()) && Extends(old(Ns()), Ns())
      ensures AttrsDenote(attrs, MarkAttributes(m), Cs(), Ns())
    {
      hide Compiler.Valid, NulFree;
      attrs := [];
      NulFreeLiterals();
      ghost var cs := Cs();
      if |id| > 0 {
        var name := UseConstant("id");
        attrs := attrs + [Attr(name, Constant(id[0]))];
      }
      ghost var cs1 := Cs();
      assert AttrsDenote(attrs, MarkAttributes(m.(classes := [])), cs1, Ns());
      assert MarksDenote(id, classes, m, cs1);
      if |classes| > 0 {
        var name := UseConstant("class");
        AttrsDenoteLater(attrs, MarkAttributes(m.(classes := [])), cs1, Ns(), Cs(), Ns());
        if |classes| == 1 {
          attrs := attrs + [Attr(name, Constant(classes[0]))];
        } else {
          var contents := seq(|classes|, i requires 0 <= i < |classes| => Const(classes[i]));
          attrs := attrs + [Attr(name, Mixed(Contents(contents, ' ')))];
        }
      }
    }

    /** The attribute loop of muggin_parse_node. */
    method ReadAttributes() returns (st: Status, attrs: seq<Attr<nat>>)
      requires Valid()
      modifies this`input, constants, names
      ensures Valid() && indent == old(indent)
      ensures Extends(old(Cs()), Cs()) && Extends(old(Ns()), Ns())
      ensures StepDone(ParseAttributes(old(input)), st, input)
      ensures st == Yes ==> AttrsDenote(attrs, ParseAttributes(old(input)).value, Cs(), Ns())
    {
      hide Compiler.Valid, ParseAttributes, ParseAttribute;
      attrs := [];
      ghost var texts: seq<Attr<string>> := [];
      OntoNothing(ParseAttributes(input));
      while true
        invariant Valid() && indent == old(indent)
        invariant Extends(old(Cs()), Cs()) && Extends(old(Ns()), Ns())
        invariant AttrsDenote(attrs, texts, Cs(), Ns())
        invariant ParseAttributes(old(input)) == Onto(texts, ParseAttributes(input))
        decreases |input|
      {
        hide AttrsDenote, AttrDenotes;
        ghost var s, cs, ns := input, Cs(), Ns();
        AttributesStep(texts, s);
        var attr;
        st, attr := ReadAttribute();
        if st != Yes {
          if st == No { st := Yes; }
          AttrsDenoteLater(attrs, texts, cs, ns, Cs(), Ns());
          return;
        }
        AttrsDenoteMore(attrs, texts, attr, ParseAttribute(s).value, cs, ns, Cs(), Ns());
        attrs := attrs + [attr];
        texts := texts + [ParseAttribute(s).value];
      }
    }

    /** The parenthesised attributes of muggin_parse_node. */
    method ReadParens() returns (st: Status, attrs: seq<Attr<nat>>)
      requires Valid()
      modifies this`input, constants, names
      ensures Valid() && indent == old(indent)
      ensures Extends(old(Cs()), Cs()) && Extends(old(Ns()), Ns())
      ensures StepDone(ParseParens(old(input)), st, input)
      ensures st == Yes ==> AttrsDenote(attrs, ParseParens(old(input)).value, Cs(), Ns())
    {
      hide Compiler.Valid, ParseAttributes, NulFree, AttrDenotes;
      if CharAt(input, 0) != '(' { return Yes, []; }
      NulFreeInput();
      NulFreeCut(input, 1);
      Advance(Drop(input, 1));
      st, attrs := ReadAttributes();
      if st == Yes {
        if CharAt(input, 0) != ')' { return No, attrs; }
        NulFreeInput();
        NulFreeCut(input, 1);
        Advance(Drop(input, 1));
      }
    }

    /** Cuts the rest of the line off the input and trims it. */
    method RestOfLine() returns (line: string)
      requires Valid()
      modifies this`input
      ensures Valid() && Cs() == old(Cs()) && Ns() == old(Ns())
      ensures line == Trim(Before(old(input), "\n")) && input == After(old(input), "\n") && NulFree(line)
    {
      hide *;
      NulFreeInput();
      LineCut(input);
      var ok, split, rest := StrSplitAt(input, "\n");
      if ok {
        line := Trim(split);
        Advance(rest);
      } else {
        line := Trim(input);
        Advance("");
      }
    }

    /** The rest of the element's line in muggin_parse_node. */
    method ReadInline() returns (st: Status, children: seq<Node<nat>>)
      requires Valid()
      modifies this`input, constants, names
      ensures Valid() && indent == old(indent)
      ensures Extends(old(Cs()), Cs()) && Extends(old(Ns()), Ns())
      ensures StepDone(ParseInline(old(input)), st, input)
      ensures st == Yes ==> NodesDenote(children, ParseInline(old(input)).value, Cs(), Ns())
    {
      hide Compiler.Valid, ParseInline, ParseContents, NulFree, Trim, Before, After, ItemsDenote, NodesDenote;
      children := [];
      InlineValue(input);
      var content := RestOfLine();
      st := Yes;
      if |content| > 0 {
        var items;
        st, items := ContentsFromStr(content);
        children := [Text(Contents(items, '\0'))];
        if st == Yes {
          TextDenotes(items, ParseContents(content).value, Cs(), Ns());
        }
      } else {
        NothingDenotes(Cs(), Ns());
      }
    }

    /** muggin_parse_node up to the end of the element's own line. */
    method ReadHead() returns (st: Status, head: Node<nat>)
      requires Valid()
      modifies this`input, constants, names
      ensures Valid() && indent == old(indent)
      ensures Extends(old(Cs()), Cs()) && Extends(old(Ns()), Ns())
      ensures StepDone(ParseHead(old(input)), st, input)
      ensures st == Yes ==> head.Element? && NodeDenotes(head, ParseHead(old(input)).value, Cs(), Ns())
    {
      hide Compiler.Valid, RunLength, ParseMarks, ParseParens, ParseInline, NulFree, AttrsDenote, NodesDenote,
          MarkAttributes;
      hide MarksDenote;
      head := Element(0, [], [], false);
      ghost var s := input;
      var ok, tag := ReadConstant(TagChars);
      if !ok { return No, head; }
      ghost var cs1 := Cs();
      var text := ConstantText(tag);
      var isVoid := text in VOID_ELEMENTS;
      var id, classes, attrs, parens, children;
      ghost var s1 := input;
      st, id, classes := ReadMarks();
      if st != Yes { return; }
      ghost var marks := ParseMarks(s1, Marks([], [])).value;
      attrs := MarkAttrs(id, classes, marks);
      ghost var s2, cs2, ns2 := input, Cs(), Ns();
      st, parens := ReadParens();
      if st != Yes { return; }
      AttrsDenoteLater(attrs, MarkAttributes(marks), cs2, ns2, Cs(), Ns());
      AttrsDenoteBoth(attrs, MarkAttributes(marks), parens, ParseParens(s2).value, Cs(), Ns());
      ghost var s3, cs3, ns3 := input, Cs(), Ns();
      st, children := ReadInline();
      if st != Yes { return; }
      AttrsDenoteLater(attrs + parens, MarkAttributes(marks) + ParseParens(s2).value, cs3, ns3, Cs(), Ns());
      IdOfLater(tag, text, cs1, Cs());
      head := Element(tag, attrs + parens, children, isVoid);
      ElementDenotes(head, Element(text, MarkAttributes(marks) + ParseParens(s2).value, ParseInline(s3).value, isVoid),
                     Cs(), Ns());
    }

    /** CONSTANT(t, id) */
    method ConstantText(id: nat) returns (s: string)
      requires Valid() && id < |Cs()|
      ensures s == Cs()[id]
    {
      s := constants.pool[constants.idx[id]];
    }

    /** The `|` branch of muggin_parse_node. */
    method ReadTextLine() returns (st: Status, node: Node<nat>)
      requires Valid() && input != ""
      modifies this`input, constants, names
      ensures Valid() && indent == old(indent)
      ensures Extends(old(Cs()), Cs()) && Extends(old(Ns()), Ns())
      ensures StepDone(ParseTextLine(old(input)), st, input)
      ensures st == Yes ==> NodeDenotes(node, ParseTextLine(old(input)).value, Cs(), Ns())
    {
      hide Compiler.Valid, ParseTextLine, ParseContents, NulFree, Trim, Before, After, ItemsDenote, NodeDenotes, Drop;
      NulFreeInput();
      TextLineValue(input);
      NulFreeCut(input, 1);
      NulFreeTrim(Drop(input, 1));
      Advance(Trim(Drop(input, 1)));
      var line := RestOfLine();
      var items;
      st, items := ContentsFromStr(line);
      node := Text(Contents(items, '\0'));
      if st == Yes {
        TextDenotes(items, ParseContents(line).value, Cs(), Ns());
      }
    }

    /** muggin_parse_node */
    method ReadNode() returns (st: Status, node: Node<nat>)
      requires Valid()
      modifies this`input, this`indent, constants, names
      ensures Valid() && indent == old(indent)
      ensures Extends(old(Cs()), Cs()) && Extends(old(Ns()), Ns())
      ensures StepDone(ParseNode(old(input), old(indent)), st, input)
      ensures st == Yes ==> NodeDenotes(node, ParseNode(old(input), old(indent)).value, Cs(), Ns())
      decreases |input|, 1
    {
      hide Compiler.Valid, ParseHead, ParseTextLine, ParseChildren, IndentWidth, SkipIndent, NodeDenotes;
      node := Text(Contents([], '\0'));
      var ok := CheckIndent(indent);
      if !ok { return No, node; }
      if CharAt(input, 0) == '|' {
        st, node := ReadTextLine();
        return;
      }
      ghost var s1 := input;
      st, node := ReadHead();
      if st != Yes { return; }
      ghost var s2, cs, ns := input, Cs(), Ns();
      var currentIndent := indent;
      var children;
      SetIndent(indent + 2);
      st, children := ReadChildren();
      SetIndent(currentIndent);
      if st == Yes {
        NodeDenotesLater(node, ParseHead(s1).value, cs, ns, Cs(), Ns());
        MoreChildren(node, ParseHead(s1).value, children, ParseChildren(s2, currentIndent + 2).value, Cs(), Ns());
        node := node.(children := node.children + children);
      }
    }

    method SetIndent(n: nat)
      requires Valid()
      modifies this`indent
      ensures Valid() && indent == n && Cs() == old(Cs()) && Ns() == old(Ns())
    {
      indent := n;
    }

    /** The child loop of muggin_parse_node. */
    method ReadChildren() returns (st: Status, children: seq<Node<nat>>)
      requires Valid()
      modifies this`input, this`indent, constants, names
      ensures Valid() && indent == old(indent)
      ensures Extends(old(Cs()), Cs()) && Extends(old(Ns()), Ns())
      ensures StepDone(ParseChildren(old(input), old(indent)), st, input)
      ensures st == Yes ==> NodesDenote(children, ParseChildren(old(input), old(indent)).value, Cs(), Ns())
      decreases |input|, 2
    {
      hide Compiler.Valid, ParseChildren, ParseNode;
      children := [];
      ghost var texts: seq<Node<string>> := [];
      OntoNothing(ParseChildren(input, indent));
      while true
        invariant Valid() && indent == old(indent) && |input| <= |old(input)|
        invariant Extends(old(Cs()), Cs()) && Extends(old(Ns()), Ns())
        invariant NodesDenote(children, texts, Cs(), Ns())
        invariant ParseChildren(old(input), old(indent)) == Onto(texts, ParseChildren(input, indent))
        decreases |input|
      {
        hide NodesDenote, NodeDenotes;
        ghost var s, cs, ns := input, Cs(), Ns();
        ChildrenStep(texts, s, indent);
        var child;
        st, child := ReadNode();
        if st != Yes {
          if st == No { st := Yes; }
          NodesDenoteLater(children, texts, cs, ns, Cs(), Ns());
          return;
        }
        NodesDenoteMore(children, texts, child, ParseNode(s, indent).value, cs, ns, Cs(), Ns());
        children := children + [child];
        texts := texts + [ParseNode(s, indent).value];
      }
    }
  }

  /** Text in which no reference starts is all constant. */
  lemma PlainRest(s: string)
    ensures !(IndexOf(s, '{') != -1 && CharAt(s, IndexOf(s, '{') + 1) == '{') ==>
              forall texts :: Prepend(texts, ParseContents(s)) == Got(if s == "" then texts else texts + [Const(s)], "")
    ensures forall texts :: Prepend(texts, Abort) == Abort
  {
    hide IndexOf, CharAt;
    forall texts: seq<Content<string>>
      ensures texts + [] == texts
    {}
  }

  lemma AppendNothing<T>(s: seq<T>)
    ensures s + [] == s
  {}

  lemma AppendMore<T>(a: seq<T>, b: seq<T>, x: T)
    ensures a + b + [x] == a + (b + [x])
  {}

  lemma UnclosedReference(s: string, idx: nat, t: string, j: int)
    requires IndexOf(s, '{') == idx && CharAt(s, idx + 1) == '{' && t == LTrim(Drop(s, idx + 2)) && j == IndexOf(t, '}')
    ensures j == -1 || CharAt(t, j + 1) != '}' ==> ParseContents(s) == Abort
  {
    hide IndexOf, LTrim, Drop, CharAt;
  }

  lemma ClosedReference(s: string, idx: nat, t: string, j: nat, name: string, rest: string)
    requires IndexOf(s, '{') == idx && CharAt(s, idx + 1) == '{' && t == LTrim(Drop(s, idx + 2)) && j == IndexOf(t, '}')
    requires CharAt(t, j + 1) == '}' && name == RTrim(t[..j]) && rest == Drop(t, j + 2)
    ensures name == "" ==> ParseContents(s) == Abort
    ensures name != "" ==>
              && ParseContents(s) == Prepend(PlainText(s[..idx]) + [Name(name)], ParseContents(rest))
              && |rest| < |s|
  {
    DropShorter(s, idx + 2);
    DropShorter(t, j + 2);
    ReferenceStep(s, idx, t, j);
    PlainBefore(s, idx);
    hide IndexOf, LTrim, RTrim, CharAt, Drop, ParseContents, PlainText;
  }

  lemma PlainBefore(s: string, idx: nat)
    requires idx <= |s|
    ensures PlainText(s[..idx]) == if idx > 0 then [Const(s[..idx])] else []
  {}

  lemma ReferenceStep(s: string, idx: nat, t: string, j: nat)
    requires IndexOf(s, '{') == idx && CharAt(s, idx + 1) == '{' && t == LTrim(Drop(s, idx + 2)) && j == IndexOf(t, '}')
    requires CharAt(t, j + 1) == '}'
    ensures |Drop(t, j + 2)| < |s|
    ensures ParseContents(s)
            == if RTrim(t[..j]) == "" then Abort
               else
                 match ParseContents(Drop(t, j + 2))
                 case Got(items, _) =>
                   var before := if idx > 0 then [Const(s[..idx])] else [];
                   Got(before + [Name(RTrim(t[..j]))] + items, "")
                 case _ => Abort
  {
    DropShorter(s, idx + 2);
    DropShorter(t, j + 2);
    hide IndexOf, LTrim, RTrim, CharAt, Drop;
  }

  lemma DropShorter(s: string, n: nat)
    ensures |Drop(s, n)| <= |s| && (s != "" && n > 0 ==> |Drop(s, n)| < |s|)
  {}

  lemma PrependNothing(r: Step<seq<Content<string>>>)
    requires r.Got? ==> r.rest == ""
    requires r.Got? || r.Abort?
    ensures Prepend([], r) == r
  {
    if r.Got? { assert [] + r.value == r.value; }
  }

  lemma PrependTwice(a: seq<Content<string>>, b: seq<Content<string>>, r: Step<seq<Content<string>>>)
    ensures Prepend(a, Prepend(b, r)) == Prepend(a + b, r)
  {
    if r.Got? { assert a + (b + r.value) == a + b + r.value; }
  }

  /** A step of the specification and what the method reports agree, down to the input left over. */
  predicate StepDone<T>(r: Step<T>, st: Status, input: string) {
    match r
    case Got(_, rest) => st == Yes && input == rest
    case NoMatch(rest) => st == No && input == rest
    case Abort => st == Aborted
    case Hang => st == Hung
  }

  lemma MixedDenotes(name: nat, text: string, items: seq<Content<nat>>, texts: seq<Content<string>>, cs0: seq<string>,
                     cs: seq<string>, ns: seq<string>)
    requires IdOf(name, text, cs0) && Extends(cs0, cs) && ItemsDenote(items, texts, cs, ns)
    ensures AttrDenotes(Attr(name, Mixed(Contents(items, '\0'))), Attr(text, Mixed(Contents(texts, '\0'))), cs, ns)
  {
    hide ItemsDenote;
  }

  lemma IdOfLater(id: nat, s: string, cs: seq<string>, cs': seq<string>)
    requires IdOf(id, s, cs) && Extends(cs, cs')
    ensures IdOf(id, s, cs')
  {}

  lemma NulFreeSplit(s: string, chars: string)
    requires NulFree(s)
    ensures NulFree(Before(s, chars)) && NulFree(After(s, chars))
  {}

  lemma ItemsDenoteLater(c: seq<Content<nat>>, t: seq<Content<string>>, cs: seq<string>, ns: seq<string>,
                         cs': seq<string>, ns': seq<string>)
    requires ItemsDenote(c, t, cs, ns) && Extends(cs, cs') && Extends(ns, ns')
    ensures ItemsDenote(c, t, cs', ns')
  {
    ContentsDenoteLater(Contents(c, '\0'), Contents(t, '\0'), cs, ns, cs', ns');
  }

  ghost function PlainText(s: string): seq<Content<string>> {
    if s == "" then [] else [Const(s)]
  }

  ghost function Prepend(texts: seq<Content<string>>, r: Step<seq<Content<string>>>): Step<seq<Content<string>>> {
    match r
    case Got(more, _) => Got(texts + more, "")
    case _ => Abort
  }

  predicate MarksDenote(id: seq<nat>, classes: seq<nat>, m: Marks, cs: seq<string>) {
    && |id| == |m.id| && (forall i | 0 <= i < |id| :: IdOf(id[i], m.id[i], cs))
    && |classes| == |m.classes| && (forall i | 0 <= i < |classes| :: IdOf(classes[i], m.classes[i], cs))
  }

  lemma MarksCount(id: seq<nat>, classes: seq<nat>, m: Marks, cs: seq<string>)
    requires MarksDenote(id, classes, m, cs)
    ensures |id| == |m.id| && |classes| == |m.classes|
  {}

  lemma MarksDenoteId(id: seq<nat>, classes: seq<nat>, m: Marks, cs: seq<string>, cs': seq<string>, ref: nat, s: string)
    requires MarksDenote(id, classes, m, cs) && Extends(cs, cs') && IdOf(ref, s, cs')
    ensures MarksDenote([ref], classes, m.(id := [s]), cs')
  {}

  lemma MarksDenoteClass(id: seq<nat>, classes: seq<nat>, m: Marks, cs: seq<string>, cs': seq<string>, ref: nat,
                         s: string)
    requires MarksDenote(id, classes, m, cs) && Extends(cs, cs') && IdOf(ref, s, cs')
    ensures MarksDenote(id, classes + [ref], m.(classes := m.classes + [s]), cs')
  {}

  /** One turn of the mark loop. */
  lemma MarkStep(s: string, m: Marks)
    requires |m.id| <= 1 && |m.classes| <= MAX_CLASSES
    ensures var c, t := CharAt(s, 0), Drop(s, 1);
            var n := RunLength(t, TagChars, true);
            ParseMarks(s, m) ==
            if c == '#' then
              if |m.id| == 1 then NoMatch(s) else if n == 0 then NoMatch(t) else ParseMarks(t[n..], m.(id := [t[..n]]))
            else if c == '.' then
              if n == 0 then NoMatch(t)
              else if |m.classes| == MAX_CLASSES then NoMatch(t[n..])
              else ParseMarks(t[n..], m.(classes := m.classes + [t[..n]]))
            else Got(m, s)
    ensures var c, t := CharAt(s, 0), Drop(s, 1);
            c == '#' || c == '.' ==> |t| < |s|
  {
    hide RunLength;
  }

  lemma NulFreeLiterals()
    ensures NulFree("id") && NulFree("class")
  {}

  /** Values found so far, put in front of those of a later step. */
  ghost function Onto<T>(found: seq<T>, r: Step<seq<T>>): Step<seq<T>> {
    match r
    case Got(more, rest) => Got(found + more, rest)
    case other => other
  }

  lemma OntoTwice<T>(a: seq<T>, b: seq<T>, r: Step<seq<T>>)
    ensures Onto(a, Onto(b, r)) == Onto(a + b, r)
  {
    if r.Got? { assert a + (b + r.value) == a + b + r.value; }
  }

  lemma OntoNothing<T>(r: Step<seq<T>>)
    ensures Onto([], r) == r
  {
    if r.Got? { assert [] + r.value == r.value; }
  }

  /** One turn of the attribute loop. */
  lemma AttributesStep(found: seq<Attr<string>>, s: string)
    ensures Onto(found, ParseAttributes(s)) ==
            match ParseAttribute(s)
            case Got(a, rest) => Onto(found + [a], ParseAttributes(rest))
            case NoMatch(rest) => Got(found, rest)
            case Abort => Abort
            case Hang => Hang
  {
    hide ParseAttribute;
    var first := ParseAttribute(s);
    if first.Got? {
      OntoTwice(found, [first.value], ParseAttributes(first.rest));
    } else {
      assert found + [] == found;
    }
  }

  lemma AttrsDenoteMore(a: seq<Attr<nat>>, t: seq<Attr<string>>, x: Attr<nat>, u: Attr<string>, cs: seq<string>,
                        ns: seq<string>, cs': seq<string>, ns': seq<string>)
    requires AttrsDenote(a, t, cs, ns) && Extends(cs, cs') && Extends(ns, ns') && AttrDenotes(x, u, cs', ns')
    ensures AttrsDenote(a + [x], t + [u], cs', ns')
  {
    AttrsDenoteLater(a, t, cs, ns, cs', ns');
    hide AttrDenotes;
  }

  lemma LineCut(s: string)
    requires NulFree(s)
    ensures NulFree(Before(s, "\n")) && NulFree(After(s, "\n")) && NulFree(Trim(Before(s, "\n")))
    ensures s == "" ==> Trim(s) == Trim(Before(s, "\n")) && "" == After(s, "\n") && NulFree("")
  {
    NulFreeSplit(s, "\n");
    NulFreeTrim(Before(s, "\n"));
  }

  lemma AttrsDenoteBoth(a: seq<Attr<nat>>, t: seq<Attr<string>>, b: seq<Attr<nat>>, u: seq<Attr<string>>,
                        cs: seq<string>, ns: seq<string>)
    requires AttrsDenote(a, t, cs, ns) && AttrsDenote(b, u, cs, ns)
    ensures AttrsDenote(a + b, t + u, cs, ns)
  {
    hide AttrDenotes;
  }

  lemma ElementDenotes(n: Node<nat>, t: Node<string>, cs: seq<string>, ns: seq<string>)
    requires n.Element? && t.Element? && IdOf(n.tag, t.tag, cs) && n.isVoid == t.isVoid
    requires AttrsDenote(n.attributes, t.attributes, cs, ns) && NodesDenote(n.children, t.children, cs, ns)
    ensures NodeDenotes(n, t, cs, ns)
  {
    hide AttrsDenote;
  }

  lemma ElementParts(n: Node<nat>, t: Node<string>, cs: seq<string>, ns: seq<string>)
    requires n.Element? && NodeDenotes(n, t, cs, ns)
    ensures t.Element? && IdOf(n.tag, t.tag, cs) && n.isVoid == t.isVoid
    ensures AttrsDenote(n.attributes, t.attributes, cs, ns) && NodesDenote(n.children, t.children, cs, ns)
  {
    hide AttrsDenote;
  }

  lemma NodesDenoteBoth(a: seq<Node<nat>>, t: seq<Node<string>>, b: seq<Node<nat>>, u: seq<Node<string>>,
                        cs: seq<string>, ns: seq<string>)
    requires NodesDenote(a, t, cs, ns) && NodesDenote(b, u, cs, ns)
    ensures NodesDenote(a + b, t + u, cs, ns)
  {
    hide NodeDenotes;
  }

  lemma MoreChildren(n: Node<nat>, t: Node<string>, c: seq<Node<nat>>, u: seq<Node<string>>, cs: seq<string>,
                     ns: seq<string>)
    requires n.Element? && NodeDenotes(n, t, cs, ns) && NodesDenote(c, u, cs, ns)
    ensures t.Element? && NodeDenotes(n.(children := n.children + c), t.(children := t.children + u), cs, ns)
  {
    hide *;
    ElementParts(n, t, cs, ns);
    NodesDenoteBoth(n.children, t.children, c, u, cs, ns);
    ElementDenotes(n.(children := n.children + c), t.(children := t.children + u), cs, ns);
  }

  lemma TextDenotes(items: seq<Content<nat>>, texts: seq<Content<string>>, cs: seq<string>, ns: seq<string>)
    requires ItemsDenote(items, texts, cs, ns)
    ensures NodeDenotes(Text(Contents(items, '\0')), Text(Contents(texts, '\0')), cs, ns)
    ensures NodesDenote([Text(Contents(items, '\0'))], [Text(Contents(texts, '\0'))], cs, ns)
  {
    hide ItemsDenote;
  }

  lemma NothingDenotes(cs: seq<string>, ns: seq<string>)
    ensures NodesDenote([], [], cs, ns)
  {}

  lemma InlineValue(s: string)
    ensures var content := Trim(Before(s, "\n"));
            var items := ParseContents(content);
            ParseInline(s) ==
            if content == "" then Got([], After(s, "\n"))
            else if items.Got? then Got([Text(Contents(items.value, '\0'))], After(s, "\n")) else Abort
  {
    hide ParseContents, Trim, Before, After;
  }

  lemma TextLineValue(s: string)
    requires s != ""
    ensures var t := Trim(Drop(s, 1));
            var items := ParseContents(Trim(Before(t, "\n")));
            ParseTextLine(s) ==
            if items.Got? then Got(Text(Contents(items.value, '\0')), After(t, "\n")) else Abort
  {
    hide ParseContents, Trim, Before, After;
  }

  lemma NodesDenoteMore(a: seq<Node<nat>>, t: seq<Node<string>>, x: Node<nat>, u: Node<string>, cs: seq<string>,
                        ns: seq<string>, cs': seq<string>, ns': seq<string>)
    requires NodesDenote(a, t, cs, ns) && Extends(cs, cs') && Extends(ns, ns') && NodeDenotes(x, u, cs', ns')
    ensures NodesDenote(a + [x], t + [u], cs', ns')
  {
    NodesDenoteLater(a, t, cs, ns, cs', ns');
    hide NodeDenotes;
  }

  /** One turn of the child loop. */
  lemma ChildrenStep(found: seq<Node<string>>, s: string, indent: nat)
    ensures Onto(found, ParseChildren(s, indent)) ==
            match ParseNode(s, indent)
            case Got(c, rest) => Onto(found + [c], ParseChildren(rest, indent))
            case NoMatch(rest) => Got(found, rest)
            case Abort => Abort
            case Hang => Hang
  {
    hide ParseNode;
    var first := ParseNode(s, indent);
    if first.Got? {
      OntoTwice(found, [first.value], ParseChildren(first.rest, indent));
    } else {
      assert found + [] == found;
    }
  }

  lemma NulFreeCut(s: string, n: nat)
    requires NulFree(s)
    ensures NulFree(Take(s, n)) && NulFree(Drop(s, n))
  {}

  lemma NulFreeTrim(s: string)
    requires NulFree(s)
    ensures NulFree(LTrim(s)) && NulFree(Trim(s))
  {}

  lemma NulFreeParts(s: string, i: nat)
    requires NulFree(s) && i <= |s|
    ensures NulFree(s[..i]) && NulFree(Drop(s, i + 2)) && NulFree(LTrim(Drop(s, i + 2))) && NulFree(RTrim(s[..i]))
  {}

  /** muggin_skip_metadata: a window of three characters slides over the text. */
  method SkipMetadataOf(text: string) returns (r: string)
    ensures r == SkipMetadata(text)
  {
    var d1, d2 := CharAt(text, 0), CharAt(text, 1);
    var i := 2;
    while i < |text|
      invariant 2 <= i && (i <= |text| || i == 2)
      invariant d1 == CharAt(text, i - 2) && d2 == CharAt(text, i - 1)
      invariant AfterDashes(text, 2) == AfterDashes(text, i)
    {
      var d3 := text[i];
      if d3 == '-' && d2 == '-' && d1 == '-' {
        return LTrim(Drop(text, i + 1));
      }
      d1, d2 := d2, d3;
      i := i + 1;
    }
    return text;
  }

  /**
   muggin_parse: the template, as a tree of ids with the strings they denote. What it denotes is what
   `Template.Parse` says of the source text, and a failure is the failure it says.
   */
  method MugginParse(source: string, hash: string -> nat)
    returns (st: Status, root: Node<nat>, constants: StringPool, names: StringPool)
    requires NulFree(source)
    ensures fresh(constants) && fresh(names) && constants.Valid() && names.Valid()
    ensures match Parse(source)
            case Got(t, _) => st == Yes && NodeDenotes(root, t, constants.Contents(), names.Contents())
            case NoMatch(_) => st == No
            case Abort => st == Aborted
            case Hang => st == Hung
  {
    hide ParseNode, SkipMetadata, LTrim, NodeDenotes, PoolOk, Strings;
    var text := SkipMetadataOf(source);
    SkipNulFree(source);
    var ctx := new Compiler(LTrim(text), hash);
    st, root := ctx.ReadNode();
    constants, names := ctx.constants, ctx.names;
  }

  lemma SkipNulFree(s: string)
    requires NulFree(s)
    ensures NulFree(LTrim(SkipMetadata(s)))
  {
    var i := AfterDashes(s, 2);
    if i != -1 {
      NulFreeCut(s, i);
      NulFreeTrim(s[i..]);
      NulFreeTrim(LTrim(s[i..]));
    } else {
      NulFreeTrim(s);
    }
  }
}
