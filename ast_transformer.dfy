/**
 * The syntax-tree PropTypes migration: the program object that the four
 * passes edit in place, and the two entry points that parse, analyse,
 * rewrite and regenerate. Parsing and code generation belong to the parser
 * library and are passed in as functions.
 */
module AstTransformer {
  import opened Wrappers
  import opened Seqs
  import opened Ast
  import opened ImportRewrite
  import opened MemberRewrite
  import opened ImportInjection

  datatype PropTypesUsage = PropTypesUsage(hasES6Import: bool, hasReactPropTypesUsage: bool, needsTransformation: bool)

  datatype TransformationResult = TransformationResult(code: string, modified: bool)

  /** What the parser returns for a source text and file name. */
  datatype ParseResult = Parsed(body: seq<Stmt>) | ParseError(message: string)

  /** The analyzer's member signal: `React.PropTypes` occurs somewhere. */
  predicate HasReactPropTypesUsage(body: seq<Stmt>) {
    OccurrencesIn(body) > 0
  }

  predicate BodyNeedsTransformation(body: seq<Stmt>) {
    HasDeprecatedImport(body) || HasReactPropTypesUsage(body)
  }

  /** The tree handed to the code generator, for a body that needs the migration. */
  function TransformedBody(body: seq<Stmt>): seq<Stmt>
  {
    var afterImports := if HasDeprecatedImport(body) then ImportsRewritten(body) else body;
    if HasReactPropTypesUsage(body) then
      var afterMembers := MembersRewritten(afterImports);
      if HasImportFrom(afterMembers, PropTypesModule) then afterMembers else Injected(afterMembers)
    else afterImports
  }

  /**
   * When the migration reports a change: an import was edited, or the body uses
   * `React.PropTypes` and either some use was chained or no `prop-types`
   * import was there to begin with.
   */
  predicate BodyModified(body: seq<Stmt>) {
    HasDeprecatedImport(body)
    || (HasReactPropTypesUsage(body) && (ChainUsesIn(body) > 0 || !HasImportFrom(body, PropTypesModule)))
  }

  /** The parsed file: its statement list is what every pass edits. */
  class Program {
    var body: seq<Stmt>

    constructor (body: seq<Stmt>)
      ensures this.body == body
    {
      this.body := body;
    }

    /** One read-only pass over the body that raises the two signals. */
    method AnalyzePropTypesUsage() returns (usage: PropTypesUsage)
      ensures usage.hasES6Import == HasDeprecatedImport(body)
      ensures usage.hasReactPropTypesUsage == HasReactPropTypesUsage(body)
      ensures usage.needsTransformation == (usage.hasES6Import || usage.hasReactPropTypesUsage)
    {
      var hasES6Import := false;
      var hasReactPropTypesUsage := false;
      var i := 0;
      while i < |body|
        invariant 0 <= i <= |body|
        invariant hasES6Import == HasDeprecatedImport(body[..i])
        invariant hasReactPropTypesUsage == (OccurrencesIn(body[..i]) > 0)
      {
        var st := body[i];
        assert body[..i + 1] == body[..i] + [st];
        HasDeprecatedImportSnoc(body[..i], st);
        assert body[..i + 1][..i] == body[..i];
        if IsDeprecatedImport(st) {
          hasES6Import := true;
        }
        if StmtOccurrences(st) > 0 {
          hasReactPropTypesUsage := true;
        }
        i := i + 1;
      }
      assert body[..i] == body;
      usage := PropTypesUsage(hasES6Import, hasReactPropTypesUsage, hasES6Import || hasReactPropTypesUsage);
    }

    /**
     * Visits the statements in order with a cursor into the list being edited:
     * a deprecated React import loses its first `PropTypes` specifier, the
     * first such edit inserts the `prop-types` import right after it, and an
     * import left empty is removed.
     */
    method TransformES6Imports() returns (modified: bool)
      modifies this
      ensures body == ImportsRewritten(old(body))
      ensures modified == HasDeprecatedImport(old(body))
    {
      var b := body;
      ghost var orig := b;
      ghost var k := 0;
      modified := false;
      var hasAddedPropTypesImport := false;
      var i := 0;
      while i < |b|
        invariant 0 <= k <= |orig|
        invariant b == ImportsRewritten(orig[..k]) + orig[k..]
        invariant i == |ImportsRewritten(orig[..k])|
        invariant hasAddedPropTypesImport == HasDeprecatedImport(orig[..k])
        invariant modified == hasAddedPropTypesImport
        invariant |b| - i == |orig| - k
        decreases |b| - i
      {
        ImportPassStep(orig, k, b, hasAddedPropTypesImport);
        var edited;
        b, i, edited := VisitStatement(b, i, hasAddedPropTypesImport);
        if edited {
          modified := true;
          hasAddedPropTypesImport := true;
        }
        k := k + 1;
      }
      assert orig[..k] == orig;
      body := b;
    }

    /** Rewrites the expressions of every statement, recording whether any replacement happened. */
    method TransformReactPropTypesUsage() returns (modified: bool)
      modifies this
      ensures body == MembersRewritten(old(body))
      ensures modified == (ChainUsesIn(old(body)) > 0)
    {
      ghost var orig := body;
      modified := false;
      var i := 0;
      while i < |body|
        invariant 0 <= i <= |body| == |orig|
        invariant forall j :: 0 <= j < i ==> body[j] == RewriteStmt(orig[j])
        invariant forall j :: i <= j < |body| ==> body[j] == orig[j]
        invariant modified == (ChainUsesIn(orig[..i]) > 0)
      {
        var st := body[i];
        assert orig[..i + 1][..i] == orig[..i];
        if st.OtherStatement? {
          if ChainUsesAll(st.children) > 0 {
            modified := true;
          }
          body := body[i := OtherStatement(RewriteAll(st.children))];
        }
        i := i + 1;
      }
      assert orig[..i] == orig;
    }

    /**
     * When the body uses `React.PropTypes` and imports nothing from
     * `prop-types`, splices `import PropTypes from 'prop-types'` in after the
     * first React import (or at the top) and reports true.
     */
    method AddPropTypesImportIfNeeded(hasReactPropTypesUsage: bool) returns (added: bool)
      modifies this
      ensures added == (hasReactPropTypesUsage && !HasImportFrom(old(body), PropTypesModule))
      ensures body == if added then Injected(old(body)) else old(body)
    {
      if !hasReactPropTypesUsage {
        return false;
      }
      var hasExistingImport := false;
      var i := 0;
      while i < |body|
        invariant 0 <= i <= |body|
        invariant hasExistingImport == exists j :: 0 <= j < i && ImportsFrom(body[j], PropTypesModule)
      {
        if body[i].ImportDeclaration? && body[i].source == PropTypesModule {
          hasExistingImport := true;
        }
        i := i + 1;
      }
      if hasExistingImport {
        return false;
      }
      var insertIndex := 0;
      i := 0;
      while i < |body|
        invariant 0 <= i <= |body|
        invariant insertIndex == 0
        invariant forall j :: 0 <= j < i ==> !IsReactImport(body[j])
      {
        if body[i].ImportDeclaration? && IsReactSource(body[i].source) {
          insertIndex := i + 1;
          break;
        }
        i := i + 1;
      }
      assert insertIndex == InsertionIndex(body);
      body := body[..insertIndex] + [PropTypesImport()] + body[insertIndex..];
      return true;
    }
  }

  /** One visit of the import pass extends the rewritten prefix by one statement of the original. */
  lemma ImportPassStep(orig: seq<Stmt>, k: nat, body: seq<Stmt>, hasAdded: bool)
    requires k < |orig|
    requires body == ImportsRewritten(orig[..k]) + orig[k..]
    requires hasAdded == HasDeprecatedImport(orig[..k])
    ensures var i := |ImportsRewritten(orig[..k])|;
            i < |body| && body[i] == orig[k]
            && body[..i] + Step(body[i], hasAdded) + body[i + 1..] == ImportsRewritten(orig[..k + 1]) + orig[k + 1..]
            && i + |Step(body[i], hasAdded)| == |ImportsRewritten(orig[..k + 1])|
            && HasDeprecatedImport(orig[..k + 1]) == (hasAdded || IsDeprecatedImport(orig[k]))
  {
    var done := ImportsRewritten(orig[..k]);
    var i := |done|;
    assert body[..i] == done && body[i] == orig[k] && body[i + 1..] == orig[k + 1..];
    ImportsRewrittenPrefix(orig, k);
    assert ImportsRewritten(orig[..k + 1]) == done + Step(orig[k], hasAdded);
  }

  /**
   * The full pipeline. A parse failure or a body without either signal gives
   * back the input text unmodified; otherwise the passes run on one shared
   * tree and the generated text is returned with the OR of their results.
   * The generator (`None` when it throws) failing also gives back the input
   * unmodified, as the one `catch` around the whole pipeline does.
   */
  method TransformWithAST(code: string, filename: string,
                          parse: (string, string) -> ParseResult, generate: seq<Stmt> -> Option<string>)
    returns (result: TransformationResult)
    ensures parse(code, filename).ParseError? ==> result == TransformationResult(code, false)
    ensures parse(code, filename).Parsed? && !BodyNeedsTransformation(parse(code, filename).body) ==>
              result == TransformationResult(code, false)
    ensures parse(code, filename).Parsed? && BodyNeedsTransformation(parse(code, filename).body)
            && generate(TransformedBody(parse(code, filename).body)).None? ==>
              result == TransformationResult(code, false)
    ensures parse(code, filename).Parsed? && BodyNeedsTransformation(parse(code, filename).body)
            && generate(TransformedBody(parse(code, filename).body)).Some? ==>
              var body := parse(code, filename).body;
              result == TransformationResult(generate(TransformedBody(body)).value, BodyModified(body))
  {
    var parsed := parse(code, filename);
    if parsed.ParseError? {
      return TransformationResult(code, false);
    }
    var ast := new Program(parsed.body);
    var usage := ast.AnalyzePropTypesUsage();
    if !usage.needsTransformation {
      return TransformationResult(code, false);
    }
    var modified := RunPasses(ast, usage);
    var generated := generate(ast.body);
    if generated.None? {
      return TransformationResult(code, false);
    }
    return TransformationResult(generated.value, modified);
  }

  /**
   * The passes of the pipeline on the shared tree, each run when its signal
   * was raised; the result is the OR of what they report.
   */
  method RunPasses(ast: Program, usage: PropTypesUsage) returns (modified: bool)
    requires usage.hasES6Import == HasDeprecatedImport(ast.body)
    requires usage.hasReactPropTypesUsage == HasReactPropTypesUsage(ast.body)
    requires usage.hasES6Import || usage.hasReactPropTypesUsage
    modifies ast
    ensures ast.body == TransformedBody(old(ast.body))
    ensures modified == BodyModified(old(ast.body))
  {
    ghost var body := ast.body;
    modified := false;
    if usage.hasES6Import {
      var changed := ast.TransformES6Imports();
      modified := changed || modified;
    }
    ghost var afterImports := ast.body;
    ImportsRewrittenKeepsUsage(body);
    if usage.hasReactPropTypesUsage {
      var changed := ast.TransformReactPropTypesUsage();
      modified := changed || modified;
      MembersRewrittenKeepsImportSignals(afterImports, PropTypesModule);
      ImportSignalsAfterImportPass(body);
      var injected := ast.AddPropTypesImportIfNeeded(true);
      modified := injected || modified;
    }
  }

  /** The loop body of the import pass: visit the statement at the cursor `i`. */
  method VisitStatement(body: seq<Stmt>, i: nat, hasAdded: bool) returns (b: seq<Stmt>, next: nat, edited: bool)
    requires i < |body|
    ensures b == body[..i] + Step(body[i], hasAdded) + body[i + 1..]
    ensures next == i + |Step(body[i], hasAdded)|
    ensures edited == IsDeprecatedImport(body[i])
  {
    var st := body[i];
    if st.ImportDeclaration? && IsReactSource(st.source) {
      b, next := VisitReactImport(body, i, hasAdded);
      edited := FindPropTypesSpecifier(st.specifiers) >= 0;
      if edited {
        assert IsPropTypesSpecifier(st.specifiers[FindPropTypesSpecifier(st.specifiers)]);
      }
    } else {
      SplitAt(body, i);
      b, next, edited := body, i + 1, false;
    }
  }

  /**
   * One visit of a React import at the cursor `i` of the statement list:
   * drop its first `PropTypes` specifier, insert the new import after it
   * unless that was done already, and remove it when no specifier is left.
   * Returns the edited list and where the cursor goes next.
   */
  method VisitReactImport(body: seq<Stmt>, i: nat, hasAdded: bool) returns (b: seq<Stmt>, next: nat)
    requires i < |body| && body[i].ImportDeclaration? && IsReactSource(body[i].source)
    ensures b == body[..i] + Step(body[i], hasAdded) + body[i + 1..]
    ensures next == i + |Step(body[i], hasAdded)|
  {
    var st := body[i];
    var found := FindPropTypesSpecifier(st.specifiers);
    if found < 0 {
      StepOfUneditedImport(st, hasAdded);
      SplitAt(body, i);
      b, next := body, i + 1;
    } else {
      b, next := EditReactImport(body, i, hasAdded, found);
    }
  }

  /** The edit of a React import whose specifier at `found` is the first `PropTypes` one. */
  method EditReactImport(body: seq<Stmt>, i: nat, hasAdded: bool, found: nat) returns (b: seq<Stmt>, next: nat)
    requires i < |body| && body[i].ImportDeclaration? && IsReactSource(body[i].source)
    requires found == FindPropTypesSpecifier(body[i].specifiers)
    ensures b == body[..i] + Step(body[i], hasAdded) + body[i + 1..]
    ensures next == i + |Step(body[i], hasAdded)|
  {
    var st := body[i];
    ghost var head := body[..i];
    ghost var tail := body[i + 1..];
    assert body == head + [st] + tail;
    var specs := st.specifiers[..found] + st.specifiers[found + 1..];
    var edited := ImportDeclaration(st.source, specs);
    ReplaceAtShape(head, st, tail, edited);
    b := body[i := edited];
    next := i + 1;
    ghost var added: seq<Stmt> := [];
    if !hasAdded {
      InsertAfterShape(head, edited, tail, PropTypesImport());
      b := b[..i + 1] + [PropTypesImport()] + b[i + 1..];
      added := [PropTypesImport()];
      next := next + 1;
    }
    assert b == head + [edited] + (added + tail);
    ghost var kept: seq<Stmt> := [edited];
    if |specs| == 0 {
      RemoveAtShape(head, edited, added + tail);
      b := b[..i] + b[i + 1..];
      kept := [];
      next := next - 1;
      assert b == head + (kept + added) + tail;
    } else {
      ConcatRegroup(head, kept, added, tail);
    }
    StepOfEditedImport(st, hasAdded, found, kept, added);
  }

  /** A React import without a `PropTypes` specifier is left alone. */
  lemma StepOfUneditedImport(st: Stmt, hasAdded: bool)
    requires st.ImportDeclaration? && FindPropTypesSpecifier(st.specifiers) < 0
    ensures Step(st, hasAdded) == [st]
  {
  }

  /** What visiting a deprecated import produces, given the visit's edited specifiers and its two parts. */
  lemma StepOfEditedImport(st: Stmt, hasAdded: bool, found: int, kept: seq<Stmt>, added: seq<Stmt>)
    requires st.ImportDeclaration? && IsReactSource(st.source)
    requires found == FindPropTypesSpecifier(st.specifiers) && found >= 0
    requires var specs := st.specifiers[..found] + st.specifiers[found + 1..];
             kept == if |specs| == 0 then [] else [ImportDeclaration(st.source, specs)]
    requires added == if hasAdded then [] else [PropTypesImport()]
    ensures Step(st, hasAdded) == kept + added
  {
    assert IsPropTypesSpecifier(st.specifiers[found]);
  }

  /** The import pass leaves a `prop-types` import exactly when one was there or it added one. */
  lemma ImportSignalsAfterImportPass(body: seq<Stmt>)
    ensures var afterImports := if HasDeprecatedImport(body) then ImportsRewritten(body) else body;
            HasImportFrom(afterImports, PropTypesModule) == (HasImportFrom(body, PropTypesModule) || HasDeprecatedImport(body))
  {
    if HasDeprecatedImport(body) {
      ImportsRewrittenCount(body);
      CountImportsFromPositive(body, PropTypesModule);
      CountImportsFromPositive(ImportsRewritten(body), PropTypesModule);
    }
  }

  /** Parse and analyse only; a parse failure counts as "no transformation needed". */
  method NeedsTransformation(code: string, filename: string, parse: (string, string) -> ParseResult)
    returns (needed: bool)
    ensures needed == (parse(code, filename).Parsed? && BodyNeedsTransformation(parse(code, filename).body))
  {
    var parsed := parse(code, filename);
    if parsed.ParseError? {
      return false;
    }
    var ast := new Program(parsed.body);
    var usage := ast.AnalyzePropTypesUsage();
    return usage.needsTransformation;
  }

  /**
   * The migration adds at most one `prop-types` import: exactly one when an
   * import was edited, or when `React.PropTypes` is used and none existed.
   */
  lemma TransformedImportCount(body: seq<Stmt>)
    ensures CountImportsFrom(TransformedBody(body), PropTypesModule)
         == CountImportsFrom(body, PropTypesModule)
            + (if HasDeprecatedImport(body) || (HasReactPropTypesUsage(body) && !HasImportFrom(body, PropTypesModule)) then 1 else 0)
    ensures HasReactPropTypesUsage(body) ==> HasImportFrom(TransformedBody(body), PropTypesModule)
  {
    var afterImports := if HasDeprecatedImport(body) then ImportsRewritten(body) else body;
    if HasDeprecatedImport(body) {
      ImportsRewrittenCount(body);
    }
    ImportSignalsAfterImportPass(body);
    if HasReactPropTypesUsage(body) {
      var afterMembers := MembersRewritten(afterImports);
      MembersRewrittenKeepsImportSignals(afterImports, PropTypesModule);
      if !HasImportFrom(afterMembers, PropTypesModule) {
        InjectedCounts(afterMembers);
      } else {
        CountImportsFromPositive(TransformedBody(body), PropTypesModule);
      }
    }
  }

  /** Every chained `React.PropTypes` use is rewritten; the bare ones are all still there. */
  lemma TransformedUsage(body: seq<Stmt>)
    ensures ChainUsesIn(TransformedBody(body)) == 0
    ensures OccurrencesIn(TransformedBody(body)) == OccurrencesIn(body) - ChainUsesIn(body)
  {
    var afterImports := if HasDeprecatedImport(body) then ImportsRewritten(body) else body;
    ImportsRewrittenKeepsUsage(body);
    ChainUsesInBounded(body);
    if HasReactPropTypesUsage(body) {
      var afterMembers := MembersRewritten(afterImports);
      MembersRewrittenCounts(afterImports);
      InjectedKeepsUsage(afterMembers);
    }
  }

  /**
   * Running the migration on its own output reports no change and hands the
   * generator the same tree, unless some import named `PropTypes` twice.
   */
  lemma TransformedIdempotent(body: seq<Stmt>)
    requires SinglePropTypesPerImport(body)
    ensures !BodyModified(TransformedBody(body))
    ensures TransformedBody(TransformedBody(body)) == TransformedBody(body)
  {
    var out := TransformedBody(body);
    var afterImports := if HasDeprecatedImport(body) then ImportsRewritten(body) else body;
    assert !HasDeprecatedImport(afterImports) by {
      if HasDeprecatedImport(body) {
        ImportsRewrittenClean(body);
      }
    }
    assert !HasDeprecatedImport(out) by {
      if HasReactPropTypesUsage(body) {
        var afterMembers := MembersRewritten(afterImports);
        MembersRewrittenKeepsImportSignals(afterImports, PropTypesModule);
        InjectedKeepsDeprecated(afterMembers);
      }
    }
    TransformedUsage(body);
    TransformedImportCount(body);
    if HasReactPropTypesUsage(out) {
      MembersRewrittenIdentity(out);
    }
  }

  /** `React.PropTypes.string.isRequired` becomes `PropTypes.string.isRequired`. */
  lemma ChainedUseRewritten()
    ensures var reactPropTypes := MemberExpression(Identifier("React"), Identifier(DeprecatedName), false);
            var chained := MemberExpression(MemberExpression(reactPropTypes, Identifier("string"), false), Identifier("isRequired"), false);
            var body := [OtherStatement([chained])];
            TransformedBody(body)
              == [PropTypesImport(),
                  OtherStatement([MemberExpression(MemberExpression(Identifier(DeprecatedName), Identifier("string"), false), Identifier("isRequired"), false)])]
            && BodyModified(body)
  {
    var reactPropTypes := MemberExpression(Identifier("React"), Identifier(DeprecatedName), false);
    var chained := MemberExpression(MemberExpression(reactPropTypes, Identifier("string"), false), Identifier("isRequired"), false);
    var body := [OtherStatement([chained])];
    var inner := MemberExpression(reactPropTypes, Identifier("string"), false);
    assert Occurrences(reactPropTypes) == 1 && ChainUses(reactPropTypes, true) == 1;
    assert !IsReactPropTypes(inner) && !IsReactPropTypes(chained);
    assert Occurrences(inner) == 1 && ChainUses(inner, true) == 1;
    assert Occurrences(chained) == 1 && ChainUses(chained, false) == 1;
    assert [chained][1..] == [] && body[..0] == [];
    assert OccurrencesAll([chained]) == 1 && ChainUsesAll([chained]) == 1;
    assert StmtOccurrences(body[0]) == 1 && StmtChainUses(body[0]) == 1;
    assert OccurrencesIn(body) == 1 && ChainUsesIn(body) == 1;
    assert Rewrite(inner, true) == MemberExpression(Identifier(DeprecatedName), Identifier("string"), false);
    assert RewriteAll([chained]) == [Rewrite(chained, false)];
    assert !HasDeprecatedImport(body);
    var rewritten := MembersRewritten(body);
    assert rewritten == [OtherStatement([MemberExpression(MemberExpression(Identifier(DeprecatedName), Identifier("string"), false), Identifier("isRequired"), false)])];
    assert !HasImportFrom(rewritten, PropTypesModule);
    assert InsertionIndex(rewritten) == 0;
  }

  /**
   * A bare `React.PropTypes` (not the object of another member access) is not
   * rewritten, yet it still gets `prop-types` imported and the result reported
   * as modified; with the import already present the same body needs the
   * migration but is reported unmodified.
   */
  lemma BareUseKept()
    ensures var body := [OtherStatement([MemberExpression(Identifier("React"), Identifier(DeprecatedName), false)])];
            BodyNeedsTransformation(body) && BodyModified(body)
            && TransformedBody(body) == [PropTypesImport()] + body
    ensures var body := [PropTypesImport(), OtherStatement([MemberExpression(Identifier("React"), Identifier(DeprecatedName), false)])];
            BodyNeedsTransformation(body) && !BodyModified(body) && TransformedBody(body) == body
  {
    var use := OtherStatement([MemberExpression(Identifier("React"), Identifier(DeprecatedName), false)]);
    var body := [use];
    var e := MemberExpression(Identifier("React"), Identifier(DeprecatedName), false);
    assert IsReactPropTypes(e) && Occurrences(e) == 1 && ChainUses(e, false) == 0;
    assert [e][1..] == [] && body[..0] == [];
    assert OccurrencesAll([e]) == 1 && ChainUsesAll([e]) == 0;
    assert StmtOccurrences(body[0]) == 1 && StmtChainUses(body[0]) == 0;
    assert OccurrencesIn(body) == 1 && ChainUsesIn(body) == 0;
    assert !HasDeprecatedImport(body);
    MembersRewrittenIdentity(body);
    assert !HasImportFrom(body, PropTypesModule);
    assert InsertionIndex(body) == 0;
    var withImport := [PropTypesImport(), use];
    assert withImport[1..] == body;
    assert OccurrencesIn(withImport) == 1 && ChainUsesIn(withImport) == 0 by {
      assert withImport[..1] == [PropTypesImport()];
      assert OccurrencesIn([PropTypesImport()]) == 0;
    }
    assert !HasDeprecatedImport(withImport);
    assert ImportsFrom(withImport[0], PropTypesModule);
    MembersRewrittenIdentity(withImport);
  }
}
