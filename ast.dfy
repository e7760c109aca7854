/**
 * The part of a parsed module that the PropTypes migration looks at.
 *
 * A program body is an ordered list of statements. Import declarations keep
 * their source string and ordered specifier list; every other statement is an
 * opaque node with child expressions, and expressions distinguish identifiers
 * and (non-optional) member expressions from every other kind of node, which
 * only contributes its children. Optional member expressions (`a?.b`), JSX
 * member names and TypeScript qualified names are different node types in the
 * parser's tree, so they are `OtherNode`s here as well.
 */
module Ast {
  import opened Seqs

  datatype Specifier =
    | ImportDefaultSpecifier(local: string)
    | ImportNamespaceSpecifier(local: string)
      /** `imported` is the exported name, whether written as an identifier or a string literal. */
    | ImportSpecifier(imported: string, local: string)

  datatype Expr =
    | Identifier(name: string)
      /** `obj` is the parser's `object` field; `computed` marks `obj[property]`, which no check of the migration looks at. */
    | MemberExpression(obj: Expr, property: Expr, computed: bool)
    | OtherNode(children: seq<Expr>)

  datatype Stmt =
    | ImportDeclaration(source: string, specifiers: seq<Specifier>)
    | OtherStatement(children: seq<Expr>)

  const DeprecatedName: string := "PropTypes"
  const PropTypesModule: string := "prop-types"

  /** The two spellings of the React module name that the migration recognises. */
  predicate IsReactSource(source: string) {
    source == "react" || source == "React"
  }

  /** A named specifier (not default, not namespace) importing `PropTypes`. */
  predicate IsPropTypesSpecifier(spec: Specifier) {
    spec.ImportSpecifier? && spec.imported == DeprecatedName
  }

  predicate IsReactImport(st: Stmt) {
    st.ImportDeclaration? && IsReactSource(st.source)
  }

  /** `import { PropTypes } from 'react'` (with any other specifiers beside it). */
  predicate IsDeprecatedImport(st: Stmt) {
    IsReactImport(st) && exists i :: 0 <= i < |st.specifiers| && IsPropTypesSpecifier(st.specifiers[i])
  }

  predicate ImportsFrom(st: Stmt, source: string) {
    st.ImportDeclaration? && st.source == source
  }

  /** The member expression `React.PropTypes`. */
  predicate IsReactPropTypes(e: Expr) {
    e.MemberExpression? && e.obj == Identifier("React") && e.property == Identifier(DeprecatedName)
  }

  /** The statement `import PropTypes from 'prop-types'` that the migration creates. */
  function PropTypesImport(): (st: Stmt)
    ensures ImportsFrom(st, PropTypesModule) && !IsReactImport(st)
  {
    ImportDeclaration(PropTypesModule, [ImportDefaultSpecifier(DeprecatedName)])
  }

  /** Number of import declarations in `body` whose source is exactly `source`. */
  function CountImportsFrom(body: seq<Stmt>, source: string): nat
  {
    |Filter(body, (st: Stmt) => ImportsFrom(st, source))|
  }

  predicate HasImportFrom(body: seq<Stmt>, source: string) {
    exists i :: 0 <= i < |body| && ImportsFrom(body[i], source)
  }

  lemma CountImportsFromPositive(body: seq<Stmt>, source: string)
    ensures CountImportsFrom(body, source) > 0 <==> HasImportFrom(body, source)
  {
    var kept := Filter(body, (st: Stmt) => ImportsFrom(st, source));
    if HasImportFrom(body, source) {
      var i :| 0 <= i < |body| && ImportsFrom(body[i], source);
      assert body[i] in kept;
    }
    if |kept| > 0 {
      assert kept[0] in body;
    }
  }

  lemma CountImportsFromConcat(a: seq<Stmt>, b: seq<Stmt>, source: string)
    ensures CountImportsFrom(a + b, source) == CountImportsFrom(a, source) + CountImportsFrom(b, source)
  {
    FilterConcat(a, b, (st: Stmt) => ImportsFrom(st, source));
  }

  /** Occurrences of `React.PropTypes` anywhere in an expression: what the analyzer's visitor sees. */
  function Occurrences(e: Expr): nat
  {
    match e
    case Identifier(_) => 0
    case MemberExpression(o, p, _) => (if IsReactPropTypes(e) then 1 else 0) + Occurrences(o) + Occurrences(p)
    case OtherNode(cs) => OccurrencesAll(cs)
  }

  function OccurrencesAll(es: seq<Expr>): nat
  {
    if es == [] then 0 else Occurrences(es[0]) + OccurrencesAll(es[1..])
  }

  function StmtOccurrences(st: Stmt): nat
  {
    if st.OtherStatement? then OccurrencesAll(st.children) else 0
  }

  /** Occurrences of `React.PropTypes` in a statement list (summed from the back, as a prefix grows). */
  function OccurrencesIn(body: seq<Stmt>): nat
  {
    if body == [] then 0 else OccurrencesIn(body[..|body| - 1]) + StmtOccurrences(body[|body| - 1])
  }

  /**
   * Occurrences of `React.PropTypes` that stand as the `object` of an enclosing
   * member expression; `isObject` says whether `e` itself is in that position.
   */
  function ChainUses(e: Expr, isObject: bool): nat
  {
    match e
    case Identifier(_) => 0
    case MemberExpression(o, p, _) =>
      (if isObject && IsReactPropTypes(e) then 1 else 0) + ChainUses(o, true) + ChainUses(p, false)
    case OtherNode(cs) => ChainUsesAll(cs)
  }

  function ChainUsesAll(es: seq<Expr>): nat
  {
    if es == [] then 0 else ChainUses(es[0], false) + ChainUsesAll(es[1..])
  }

  function StmtChainUses(st: Stmt): nat
  {
    if st.OtherStatement? then ChainUsesAll(st.children) else 0
  }

  function ChainUsesIn(body: seq<Stmt>): nat
  {
    if body == [] then 0 else ChainUsesIn(body[..|body| - 1]) + StmtChainUses(body[|body| - 1])
  }

  /** Every chained occurrence is an occurrence. */
  lemma {:induction false} ChainUsesBounded(e: Expr, isObject: bool)
    ensures ChainUses(e, isObject) <= Occurrences(e)
    decreases e, 1
  {
    match e
    case Identifier(_) =>
    case MemberExpression(o, p, _) =>
      ChainUsesBounded(o, true);
      ChainUsesBounded(p, false);
    case OtherNode(cs) =>
      ChainUsesAllBounded(cs);
  }

  lemma {:induction false} ChainUsesAllBounded(es: seq<Expr>)
    ensures ChainUsesAll(es) <= OccurrencesAll(es)
    decreases es, 0
  {
    if es != [] {
      ChainUsesBounded(es[0], false);
      ChainUsesAllBounded(es[1..]);
    }
  }

  lemma {:induction false} ChainUsesInBounded(body: seq<Stmt>)
    ensures ChainUsesIn(body) <= OccurrencesIn(body)
  {
    if body != [] {
      ChainUsesInBounded(body[..|body| - 1]);
      var st := body[|body| - 1];
      if st.OtherStatement? {
        ChainUsesAllBounded(st.children);
      }
    }
  }

  /** The analyzer's import signal: some statement is a deprecated import. */
  predicate HasDeprecatedImport(body: seq<Stmt>) {
    exists i :: 0 <= i < |body| && IsDeprecatedImport(body[i])
  }

  lemma HasDeprecatedImportSnoc(init: seq<Stmt>, st: Stmt)
    ensures HasDeprecatedImport(init + [st]) <==> HasDeprecatedImport(init) || IsDeprecatedImport(st)
  {
    if HasDeprecatedImport(init + [st]) {
      var i :| 0 <= i < |init + [st]| && IsDeprecatedImport((init + [st])[i]);
      if i < |init| {
        assert init[i] == (init + [st])[i];
      }
    }
    if HasDeprecatedImport(init) {
      var i :| 0 <= i < |init| && IsDeprecatedImport(init[i]);
      assert (init + [st])[i] == init[i];
    }
    assert (init + [st])[|init|] == st;
  }

  lemma {:induction false} ImportsOnlyHaveNoUsage(s: seq<Stmt>)
    requires forall i :: 0 <= i < |s| ==> s[i].ImportDeclaration?
    ensures OccurrencesIn(s) == 0 && ChainUsesIn(s) == 0
  {
    if s != [] {
      ImportsOnlyHaveNoUsage(s[..|s| - 1]);
    }
  }

  lemma {:induction false} UsageConcat(a: seq<Stmt>, b: seq<Stmt>)
    ensures OccurrencesIn(a + b) == OccurrencesIn(a) + OccurrencesIn(b)
    ensures ChainUsesIn(a + b) == ChainUsesIn(a) + ChainUsesIn(b)
    decreases |b|
  {
    if b == [] {
      assert a + b == a;
    } else {
      var binit := b[..|b| - 1];
      assert (a + b)[..|a + b| - 1] == a + binit;
      assert (a + b)[|a + b| - 1] == b[|b| - 1];
      UsageConcat(a, binit);
    }
  }

  lemma NoDeprecatedConcat(a: seq<Stmt>, b: seq<Stmt>)
    requires !HasDeprecatedImport(a) && !HasDeprecatedImport(b)
    ensures !HasDeprecatedImport(a + b)
  {
    forall i | 0 <= i < |a + b| ensures !IsDeprecatedImport((a + b)[i]) {
      if i < |a| {
        assert (a + b)[i] == a[i];
      } else {
        assert (a + b)[i] == b[i - |a|];
      }
    }
  }
}
