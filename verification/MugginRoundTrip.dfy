/**
 Compiling the canonical text of a template: the compiled tree denotes the template it was printed from.
 */
module MugginRoundTrip {
  import opened Seqs
  import opened Strs
  import opened Template
  import opened TemplatePrinter
  import opened StringPools
  import opened Muggin

  /**
   Any well-formed template without NUL characters, printed after any metadata section, compiles; and
   once its ids are resolved through the final pools, the compiled tree is the template's own. No rehash
   of the pools on the way and no choice of hash function changes that.
   */
  method CompilePrinted(metadata: string, w: string, m: Markup, hash: string -> nat)
    returns (st: Status, root: Node<nat>, constants: seq<string>, names: seq<string>)
    requires WellFormed(m) && NoDashes(metadata + "--") && forall i | 0 <= i < |w| :: IsSpace(w[i])
    requires NulFree(metadata + "---" + w + Print(m, 0))
    ensures st == Yes && NodeDenotes(root, Tree(m), constants, names)
    ensures Distinct(constants) && Distinct(names)
  {
    TemplateRoundTrip(metadata, w, m);
    hide *;
    var constantPool, namePool;
    st, root, constantPool, namePool := MugginParse(metadata + "---" + w + Print(m, 0), hash);
    constants := constantPool.List();
    names := namePool.List();
    ContentsDistinct(constantPool.pool, constantPool.idx, constantPool.count);
    ContentsDistinct(namePool.pool, namePool.idx, namePool.count);
  }
}
