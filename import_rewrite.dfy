/**
 * The import rewriter of the migration, stated on values: for each React
 * import that names `PropTypes`, the first such specifier is dropped, a single
 * `import PropTypes from 'prop-types'` is placed right after the first edited
 * statement, and an edited statement left without specifiers disappears.
 */
module ImportRewrite {
  import opened Seqs
  import opened Ast

  /** Index of the first `PropTypes` named specifier (the array `find`), or -1. */
  function FindPropTypesSpecifier(specs: seq<Specifier>): (k: int)
    ensures -1 <= k < |specs|
    ensures k == -1 <==> forall i :: 0 <= i < |specs| ==> !IsPropTypesSpecifier(specs[i])
    ensures 0 <= k ==> IsPropTypesSpecifier(specs[k]) && forall i :: 0 <= i < k ==> !IsPropTypesSpecifier(specs[i])
  {
    FirstIndex(specs, IsPropTypesSpecifier)
  }

  /**
   * The specifier list with exactly the found specifier filtered out by
   * identity: one element fewer, those before it in place, those after it
   * moved down by one.
   */
  function StripPropTypes(specs: seq<Specifier>): (r: seq<Specifier>)
    requires FindPropTypesSpecifier(specs) >= 0
    ensures |r| == |specs| - 1
    ensures var k := FindPropTypesSpecifier(specs);
            forall i :: 0 <= i < |r| ==> r[i] == (if i < k then specs[i] else specs[i + 1])
  {
    var k := FindPropTypesSpecifier(specs);
    specs[..k] + specs[k + 1..]
  }

  /** What becomes of a deprecated import: its edited form, or nothing when it is left empty. */
  function StripStmt(st: Stmt): seq<Stmt>
  {
    if IsDeprecatedImport(st) then
      var specs := StripPropTypes(st.specifiers);
      if |specs| == 0 then [] else [ImportDeclaration(st.source, specs)]
    else [st]
  }

  /** Visiting one statement: the edit, plus the new import when it has not been inserted yet. */
  function Step(st: Stmt, alreadyAdded: bool): seq<Stmt>
  {
    if IsDeprecatedImport(st) then
      StripStmt(st) + (if alreadyAdded then [] else [PropTypesImport()])
    else [st]
  }

  /** The body after the import rewriter has visited every statement of `body`, in order. */
  function ImportsRewritten(body: seq<Stmt>): seq<Stmt>
  {
    if body == [] then []
    else
      var init := body[..|body| - 1];
      ImportsRewritten(init) + Step(body[|body| - 1], HasDeprecatedImport(init))
  }

  /** Every deprecated import edited, nothing inserted. */
  function StripAll(body: seq<Stmt>): seq<Stmt>
  {
    if body == [] then [] else StripAll(body[..|body| - 1]) + StripStmt(body[|body| - 1])
  }

  /** Removing the found specifier keeps the others in order and removes exactly one. */
  lemma StripPropTypesShape(specs: seq<Specifier>)
    requires FindPropTypesSpecifier(specs) >= 0
    ensures |StripPropTypes(specs)| == |specs| - 1
    ensures multiset(StripPropTypes(specs)) + multiset{specs[FindPropTypesSpecifier(specs)]} == multiset(specs)
  {
    var k := FindPropTypesSpecifier(specs);
    assert specs == specs[..k] + [specs[k]] + specs[k + 1..];
  }

  /** A body without a deprecated import is left as it is. */
  lemma {:induction false} ImportsRewrittenNoop(body: seq<Stmt>)
    requires !HasDeprecatedImport(body)
    ensures ImportsRewritten(body) == body
  {
    if body != [] {
      var init := body[..|body| - 1];
      assert body == init + [body[|body| - 1]];
      HasDeprecatedImportSnoc(init, body[|body| - 1]);
      ImportsRewrittenNoop(init);
    }
  }

  lemma {:induction false} StripAllNoop(body: seq<Stmt>)
    requires !HasDeprecatedImport(body)
    ensures StripAll(body) == body
  {
    if body != [] {
      var init := body[..|body| - 1];
      assert body == init + [body[|body| - 1]];
      HasDeprecatedImportSnoc(init, body[|body| - 1]);
      StripAllNoop(init);
    }
  }

  lemma {:induction false} StripAllConcat(a: seq<Stmt>, b: seq<Stmt>)
    ensures StripAll(a + b) == StripAll(a) + StripAll(b)
    decreases |b|
  {
    if b == [] {
      assert a + b == a;
    } else {
      var binit := b[..|b| - 1];
      assert (a + b)[..|a + b| - 1] == a + binit;
      assert (a + b)[|a + b| - 1] == b[|b| - 1];
      StripAllConcat(a, binit);
    }
  }

  /** The last statement of a non-empty body is visited after all the others. */
  lemma ImportsRewrittenSnoc(init: seq<Stmt>, last: Stmt)
    ensures ImportsRewritten(init + [last]) == ImportsRewritten(init) + Step(last, HasDeprecatedImport(init))
    ensures StripAll(init + [last]) == StripAll(init) + StripStmt(last)
  {
    assert (init + [last])[..|init + [last]| - 1] == init;
  }

  /** The same, for the prefixes of one body: the pass after `k + 1` statements. */
  lemma ImportsRewrittenPrefix(body: seq<Stmt>, k: nat)
    requires k < |body|
    ensures ImportsRewritten(body[..k + 1]) == ImportsRewritten(body[..k]) + Step(body[k], HasDeprecatedImport(body[..k]))
    ensures HasDeprecatedImport(body[..k + 1]) == (HasDeprecatedImport(body[..k]) || IsDeprecatedImport(body[k]))
  {
    assert body[..k + 1] == body[..k] + [body[k]];
    ImportsRewrittenSnoc(body[..k], body[k]);
    HasDeprecatedImportSnoc(body[..k], body[k]);
  }

  /**
   * The shape of the rewrite: with `st` the first deprecated import, everything
   * before it is unchanged, it is replaced by its edited form (if any) followed
   * by the single new import, and everything after it is only edited.
   */
  lemma {:induction false} ImportsRewrittenShape(pre: seq<Stmt>, st: Stmt, post: seq<Stmt>)
    requires !HasDeprecatedImport(pre) && IsDeprecatedImport(st)
    ensures ImportsRewritten(pre + [st] + post) == pre + StripStmt(st) + [PropTypesImport()] + StripAll(post)
    decreases |post|
  {
    if post == [] {
      ShapeBase(pre, st);
      assert pre + [st] + post == pre + [st];
      assert pre + StripStmt(st) + [PropTypesImport()] + StripAll(post) == pre + StripStmt(st) + [PropTypesImport()];
    } else {
      var pinit := post[..|post| - 1];
      assert post == pinit + [post[|post| - 1]];
      ImportsRewrittenShape(pre, st, pinit);
      ShapeStep(pre, st, pinit, post[|post| - 1]);
    }
  }

  lemma ShapeStep(pre: seq<Stmt>, st: Stmt, pinit: seq<Stmt>, last: Stmt)
    requires IsDeprecatedImport(st)
    requires ImportsRewritten(pre + [st] + pinit) == pre + StripStmt(st) + [PropTypesImport()] + StripAll(pinit)
    ensures ImportsRewritten(pre + [st] + (pinit + [last])) == pre + StripStmt(st) + [PropTypesImport()] + StripAll(pinit + [last])
  {
    var front := pre + [st] + pinit;
    assert HasDeprecatedImport(front) by {
      assert front[|pre|] == st;
    }
    assert pre + [st] + (pinit + [last]) == front + [last];
    ImportsRewrittenSnoc(front, last);
    ImportsRewrittenSnoc(pinit, last);
    assert Step(last, true) == StripStmt(last);
    var head := pre + StripStmt(st) + [PropTypesImport()];
    ConcatAssoc(head, StripAll(pinit), StripStmt(last));
  }

  lemma ShapeBase(pre: seq<Stmt>, st: Stmt)
    requires !HasDeprecatedImport(pre) && IsDeprecatedImport(st)
    ensures ImportsRewritten(pre + [st]) == pre + StripStmt(st) + [PropTypesImport()]
  {
    ImportsRewrittenSnoc(pre, st);
    ImportsRewrittenNoop(pre);
    assert Step(st, false) == StripStmt(st) + [PropTypesImport()];
  }

  /** The same shape, for the first deprecated import found at index `j`. */
  lemma ImportsRewrittenAt(body: seq<Stmt>, j: nat)
    requires j < |body| && IsDeprecatedImport(body[j])
    requires forall i :: 0 <= i < j ==> !IsDeprecatedImport(body[i])
    ensures ImportsRewritten(body) == body[..j] + StripStmt(body[j]) + [PropTypesImport()] + StripAll(body[j + 1..])
  {
    assert body == body[..j] + [body[j]] + body[j + 1..];
    ImportsRewrittenShape(body[..j], body[j], body[j + 1..]);
  }

  /** Exactly one `prop-types` import is added when some import is edited, none otherwise. */
  lemma {:induction false} ImportsRewrittenCount(body: seq<Stmt>)
    ensures CountImportsFrom(ImportsRewritten(body), PropTypesModule)
         == CountImportsFrom(body, PropTypesModule) + (if HasDeprecatedImport(body) then 1 else 0)
  {
    if body != [] {
      var init := body[..|body| - 1];
      var last := body[|body| - 1];
      assert body == init + [last];
      ImportsRewrittenCount(init);
      HasDeprecatedImportSnoc(init, last);
      CountImportsFromConcat(ImportsRewritten(init), Step(last, HasDeprecatedImport(init)), PropTypesModule);
      CountImportsFromConcat(init, [last], PropTypesModule);
      if IsDeprecatedImport(last) {
        CountImportsFromConcat(StripStmt(last), if HasDeprecatedImport(init) then [] else [PropTypesImport()], PropTypesModule);
        assert CountImportsFrom(StripStmt(last), PropTypesModule) == 0;
        assert CountImportsFrom([last], PropTypesModule) == 0;
      }
    }
  }

  /** Statements other than import declarations are unchanged, in the same order. */
  lemma {:induction false} ImportsRewrittenKeepsCode(body: seq<Stmt>)
    ensures Filter(ImportsRewritten(body), (st: Stmt) => st.OtherStatement?)
         == Filter(body, (st: Stmt) => st.OtherStatement?)
  {
    var p := (st: Stmt) => st.OtherStatement?;
    if body != [] {
      var init := body[..|body| - 1];
      var last := body[|body| - 1];
      assert body == init + [last];
      ImportsRewrittenKeepsCode(init);
      FilterConcat(ImportsRewritten(init), Step(last, HasDeprecatedImport(init)), p);
      FilterConcat(init, [last], p);
      if IsDeprecatedImport(last) {
        var added := if HasDeprecatedImport(init) then [] else [PropTypesImport()];
        FilterConcat(StripStmt(last), added, p);
      }
    }
  }

  /** The `React.PropTypes` counts of a body do not depend on its import declarations. */
  lemma {:induction false} ImportsRewrittenKeepsUsage(body: seq<Stmt>)
    ensures OccurrencesIn(ImportsRewritten(body)) == OccurrencesIn(body)
    ensures ChainUsesIn(ImportsRewritten(body)) == ChainUsesIn(body)
  {
    if body != [] {
      var init := body[..|body| - 1];
      var last := body[|body| - 1];
      ImportsRewrittenKeepsUsage(init);
      OnlyImports(last, HasDeprecatedImport(init));
      UsageConcat(ImportsRewritten(init), Step(last, HasDeprecatedImport(init)));
    }
  }

  /** Visiting a statement keeps its usage: an edited import becomes imports only. */
  lemma OnlyImports(last: Stmt, alreadyAdded: bool)
    ensures OccurrencesIn(Step(last, alreadyAdded)) == StmtOccurrences(last)
    ensures ChainUsesIn(Step(last, alreadyAdded)) == StmtChainUses(last)
  {
    var tail := Step(last, alreadyAdded);
    if IsDeprecatedImport(last) {
      var strip := StripStmt(last);
      var extra := if alreadyAdded then [] else [PropTypesImport()];
      assert tail == strip + extra;
      assert forall i :: 0 <= i < |strip| ==> strip[i].ImportDeclaration?;
      assert forall i :: 0 <= i < |extra| ==> extra[i].ImportDeclaration?;
      ImportsOnlyHaveNoUsage(tail);
    } else {
      assert tail == [last];
      assert tail[..0] == [];
    }
  }

  /** A React import that names `PropTypes` at most once. */
  predicate SinglePropTypes(st: Stmt) {
    IsDeprecatedImport(st) ==>
      forall j :: 0 <= j < |st.specifiers| && IsPropTypesSpecifier(st.specifiers[j]) ==>
        j == FindPropTypesSpecifier(st.specifiers)
  }

  /** No React import of `body` names `PropTypes` twice. */
  predicate SinglePropTypesPerImport(body: seq<Stmt>) {
    forall i :: 0 <= i < |body| ==> SinglePropTypes(body[i])
  }

  /** Unless an import names `PropTypes` twice, no deprecated import survives the rewrite. */
  lemma {:induction false} ImportsRewrittenClean(body: seq<Stmt>)
    requires SinglePropTypesPerImport(body)
    ensures !HasDeprecatedImport(ImportsRewritten(body))
  {
    if body != [] {
      var init := body[..|body| - 1];
      var last := body[|body| - 1];
      assert SinglePropTypesPerImport(init) by {
        forall i | 0 <= i < |init| ensures init[i] == body[i] { }
      }
      ImportsRewrittenClean(init);
      StepClean(last, HasDeprecatedImport(init));
      NoDeprecatedConcat(ImportsRewritten(init), Step(last, HasDeprecatedImport(init)));
    }
  }

  /** Visiting an import that names `PropTypes` at most once leaves no deprecated import behind. */
  lemma StepClean(st: Stmt, alreadyAdded: bool)
    requires SinglePropTypes(st)
    ensures !HasDeprecatedImport(Step(st, alreadyAdded))
  {
    if IsDeprecatedImport(st) {
      var specs := st.specifiers;
      var k := FindPropTypesSpecifier(specs);
      var stripped := StripPropTypes(specs);
      forall j | 0 <= j < |stripped| ensures !IsPropTypesSpecifier(stripped[j]) {
        var jj := if j < k then j else j + 1;
        assert stripped[j] == specs[jj];
        assert jj != k;
      }
    }
  }

  /** An import naming `PropTypes` twice keeps its second such specifier. */
  lemma DuplicateSpecifierSurvives()
    ensures var body := [ImportDeclaration("react", [ImportSpecifier("PropTypes", "PropTypes"), ImportSpecifier("PropTypes", "PT")])];
            ImportsRewritten(body) == [ImportDeclaration("react", [ImportSpecifier("PropTypes", "PT")]), PropTypesImport()]
            && HasDeprecatedImport(ImportsRewritten(body))
  {
    var second := ImportSpecifier("PropTypes", "PT");
    TwoPropTypesSpecifiers(ImportDeclaration("react", [ImportSpecifier("PropTypes", "PropTypes"), second]), second);
  }

  lemma TwoPropTypesSpecifiers(st: Stmt, second: Specifier)
    requires st.ImportDeclaration? && IsReactSource(st.source)
    requires |st.specifiers| == 2 && IsPropTypesSpecifier(st.specifiers[0]) && st.specifiers[1] == second
    requires IsPropTypesSpecifier(second)
    ensures ImportsRewritten([st]) == [ImportDeclaration(st.source, [second]), PropTypesImport()]
    ensures HasDeprecatedImport(ImportsRewritten([st]))
  {
    var kept := ImportDeclaration(st.source, [second]);
    assert FindPropTypesSpecifier(st.specifiers) == 0;
    assert StripPropTypes(st.specifiers) == [second];
    assert StripStmt(st) == [kept];
    ShapeBase([], st);
    assert [] + [st] == [st];
    assert IsPropTypesSpecifier(kept.specifiers[0]);
    assert IsDeprecatedImport(ImportsRewritten([st])[0]);
  }
}
