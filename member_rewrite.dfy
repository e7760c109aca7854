/**
 * The member-access rewriter of the migration, on values: `React.PropTypes`
 * becomes the identifier `PropTypes` exactly where it is the `object` of an
 * enclosing member expression (`React.PropTypes.string`), and nowhere else.
 */
module MemberRewrite {
  import opened Ast

  /**
   * The tree after every chained `React.PropTypes` has been replaced.
   * `isObject` says whether `e` stands as the `object` of its parent member
   * expression. A replaced node has only identifier children, so replacing it
   * leaves nothing beneath it to visit, and the order in which the traversal
   * visits nodes does not matter.
   */
  function Rewrite(e: Expr, isObject: bool): Expr
  {
    match e
    case Identifier(_) => e
    case MemberExpression(o, p, c) =>
      if isObject && IsReactPropTypes(e) then Identifier(DeprecatedName)
      else MemberExpression(Rewrite(o, true), Rewrite(p, false), c)
    case OtherNode(cs) => OtherNode(RewriteAll(cs))
  }

  function RewriteAll(es: seq<Expr>): (r: seq<Expr>)
    ensures |r| == |es|
  {
    if es == [] then [] else [Rewrite(es[0], false)] + RewriteAll(es[1..])
  }

  function RewriteStmt(st: Stmt): Stmt
  {
    match st
    case ImportDeclaration(_, _) => st
    case OtherStatement(cs) => OtherStatement(RewriteAll(cs))
  }

  /** The program body after the rewriter has run over every statement. */
  function MembersRewritten(body: seq<Stmt>): (r: seq<Stmt>)
    ensures |r| == |body|
  {
    seq(|body|, i requires 0 <= i < |body| => RewriteStmt(body[i]))
  }

  /** Outside object position the rewriter never produces an identifier from a member expression. */
  lemma RewriteNotObject(e: Expr)
    ensures Rewrite(e, false).Identifier? <==> e.Identifier?
    ensures e.Identifier? ==> Rewrite(e, false) == e
  {
  }

  /** In object position the only identifier the rewriter produces from a non-identifier is `PropTypes`. */
  lemma RewriteObject(e: Expr)
    ensures Rewrite(e, true).Identifier? ==> e.Identifier? || Rewrite(e, true) == Identifier(DeprecatedName)
    ensures e.Identifier? ==> Rewrite(e, true) == e
  {
  }

  /**
   * Each chained occurrence disappears and every other occurrence stays: the
   * rewritten tree holds exactly the bare occurrences of the original and no
   * chained one.
   */
  lemma {:induction false} RewriteCounts(e: Expr, isObject: bool)
    ensures Occurrences(Rewrite(e, isObject)) == Occurrences(e) - ChainUses(e, isObject)
    ensures ChainUses(Rewrite(e, isObject), isObject) == 0
    decreases e, 1
  {
    ChainUsesBounded(e, isObject);
    match e
    case Identifier(_) =>
    case MemberExpression(o, p, c) =>
      if isObject && IsReactPropTypes(e) {
      } else {
        RewriteCounts(o, true);
        RewriteCounts(p, false);
        ChainUsesBounded(o, true);
        ChainUsesBounded(p, false);
        RewriteObject(o);
        RewriteNotObject(p);
        var r := MemberExpression(Rewrite(o, true), Rewrite(p, false), c);
        assert IsReactPropTypes(r) ==> o == Identifier("React") && p == Identifier(DeprecatedName);
        assert IsReactPropTypes(r) ==> IsReactPropTypes(e);
      }
    case OtherNode(cs) =>
      RewriteAllCounts(cs);
  }

  lemma {:induction false} RewriteAllCounts(es: seq<Expr>)
    ensures OccurrencesAll(RewriteAll(es)) == OccurrencesAll(es) - ChainUsesAll(es)
    ensures ChainUsesAll(RewriteAll(es)) == 0
    decreases es, 0
  {
    ChainUsesAllBounded(es);
    if es != [] {
      RewriteCounts(es[0], false);
      RewriteAllCounts(es[1..]);
      ChainUsesBounded(es[0], false);
      ChainUsesAllBounded(es[1..]);
      assert RewriteAll(es)[1..] == RewriteAll(es[1..]);
    }
  }

  /** Without a chained occurrence the rewriter changes nothing. */
  lemma {:induction false} RewriteIdentity(e: Expr, isObject: bool)
    requires ChainUses(e, isObject) == 0
    ensures Rewrite(e, isObject) == e
    decreases e, 1
  {
    match e
    case Identifier(_) =>
    case MemberExpression(o, p, c) =>
      RewriteIdentity(o, true);
      RewriteIdentity(p, false);
    case OtherNode(cs) =>
      RewriteAllIdentity(cs);
  }

  lemma {:induction false} RewriteAllIdentity(es: seq<Expr>)
    requires ChainUsesAll(es) == 0
    ensures RewriteAll(es) == es
    decreases es, 0
  {
    if es != [] {
      RewriteIdentity(es[0], false);
      RewriteAllIdentity(es[1..]);
    }
  }

  /** The rewriter changes a tree if and only if the tree holds a chained occurrence. */
  lemma RewriteChangesIff(e: Expr, isObject: bool)
    ensures Rewrite(e, isObject) == e <==> ChainUses(e, isObject) == 0
  {
    RewriteCounts(e, isObject);
    if ChainUses(e, isObject) == 0 {
      RewriteIdentity(e, isObject);
    }
  }

  lemma RewriteAllChangesIff(es: seq<Expr>)
    ensures RewriteAll(es) == es <==> ChainUsesAll(es) == 0
  {
    RewriteAllCounts(es);
    if ChainUsesAll(es) == 0 {
      RewriteAllIdentity(es);
    }
  }

  /** Rewriting a second time changes nothing. */
  lemma RewriteIdempotent(e: Expr, isObject: bool)
    ensures Rewrite(Rewrite(e, isObject), isObject) == Rewrite(e, isObject)
  {
    RewriteCounts(e, isObject);
    RewriteIdentity(Rewrite(e, isObject), isObject);
  }

  /** Over a whole body: chained occurrences vanish, bare ones remain, imports are untouched. */
  lemma {:induction false} MembersRewrittenCounts(body: seq<Stmt>)
    ensures OccurrencesIn(MembersRewritten(body)) == OccurrencesIn(body) - ChainUsesIn(body)
    ensures ChainUsesIn(MembersRewritten(body)) == 0
  {
    ChainUsesInBounded(body);
    if body != [] {
      var init := body[..|body| - 1];
      var st := body[|body| - 1];
      assert MembersRewritten(body)[..|body| - 1] == MembersRewritten(init);
      MembersRewrittenCounts(init);
      ChainUsesInBounded(init);
      if st.OtherStatement? {
        RewriteAllCounts(st.children);
        ChainUsesAllBounded(st.children);
      }
    }
  }

  /** A body without chained uses is left exactly as it is, so a second run of the pass changes nothing. */
  lemma {:induction false} MembersRewrittenIdentity(body: seq<Stmt>)
    requires ChainUsesIn(body) == 0
    ensures MembersRewritten(body) == body
  {
    if body != [] {
      var init := body[..|body| - 1];
      var st := body[|body| - 1];
      MembersRewrittenIdentity(init);
      assert MembersRewritten(body)[..|body| - 1] == MembersRewritten(init);
      if st.OtherStatement? {
        RewriteAllIdentity(st.children);
      }
      assert MembersRewritten(body) == MembersRewritten(init) + [RewriteStmt(st)];
      assert body == init + [st];
    }
  }

  /** Import declarations are left exactly as they were, at the same positions. */
  lemma MembersRewrittenKeepsImports(body: seq<Stmt>)
    ensures forall i :: 0 <= i < |body| && body[i].ImportDeclaration? ==> MembersRewritten(body)[i] == body[i]
    ensures forall i :: 0 <= i < |body| ==> (MembersRewritten(body)[i].ImportDeclaration? <==> body[i].ImportDeclaration?)
  {
  }

  /** The import signals of a body are those of its rewritten form. */
  lemma MembersRewrittenKeepsImportSignals(body: seq<Stmt>, source: string)
    ensures HasDeprecatedImport(MembersRewritten(body)) == HasDeprecatedImport(body)
    ensures HasImportFrom(MembersRewritten(body), source) == HasImportFrom(body, source)
    ensures CountImportsFrom(MembersRewritten(body), source) == CountImportsFrom(body, source)
  {
    var r := MembersRewritten(body);
    MembersRewrittenKeepsImports(body);
    if HasDeprecatedImport(r) {
      var i :| 0 <= i < |r| && IsDeprecatedImport(r[i]);
      assert r[i] == body[i];
    }
    if HasDeprecatedImport(body) {
      var i :| 0 <= i < |body| && IsDeprecatedImport(body[i]);
      assert r[i] == body[i];
    }
    if HasImportFrom(r, source) {
      var i :| 0 <= i < |r| && ImportsFrom(r[i], source);
      assert r[i] == body[i];
    }
    if HasImportFrom(body, source) {
      var i :| 0 <= i < |body| && ImportsFrom(body[i], source);
      assert r[i] == body[i];
    }
    MembersRewrittenCountsImports(body, source);
  }

  lemma {:induction false} MembersRewrittenCountsImports(body: seq<Stmt>, source: string)
    ensures CountImportsFrom(MembersRewritten(body), source) == CountImportsFrom(body, source)
  {
    if body != [] {
      var r := MembersRewritten(body);
      assert r == [r[0]] + r[1..];
      assert body == [body[0]] + body[1..];
      assert r[1..] == MembersRewritten(body[1..]);
      MembersRewrittenCountsImports(body[1..], source);
      CountImportsFromConcat([r[0]], r[1..], source);
      CountImportsFromConcat([body[0]], body[1..], source);
      assert ImportsFrom(r[0], source) == ImportsFrom(body[0], source);
    }
  }
}
