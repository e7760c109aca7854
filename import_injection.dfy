/**
 * The import injector of the migration, stated on values: one
 * `import PropTypes from 'prop-types'` spliced in right after the first React
 * import, or at the top of the body when there is none.
 */
module ImportInjection {
  import opened Seqs
  import opened Ast

  /** One past the first React import, or 0 when the body has none. */
  function InsertionIndex(body: seq<Stmt>): (k: nat)
    ensures k <= |body|
    ensures k == 0 <==> forall i :: 0 <= i < |body| ==> !IsReactImport(body[i])
    ensures 0 < k ==> IsReactImport(body[k - 1]) && forall i :: 0 <= i < k - 1 ==> !IsReactImport(body[i])
  {
    FirstIndex(body, IsReactImport) + 1
  }

  /** `body.splice(InsertionIndex(body), 0, propTypesImport)`. */
  function Injected(body: seq<Stmt>): seq<Stmt>
  {
    var k := InsertionIndex(body);
    body[..k] + [PropTypesImport()] + body[k..]
  }

  /**
   * Exactly one statement is added, it is the `prop-types` import, it sits
   * right after the first React import (or first), and taking it out again
   * gives back the original body in its original order.
   */
  lemma InjectedShape(body: seq<Stmt>)
    ensures var k := InsertionIndex(body);
            |Injected(body)| == |body| + 1
            && Injected(body)[k] == PropTypesImport()
            && Injected(body)[..k] + Injected(body)[k + 1..] == body
            && (k == 0 || IsReactImport(Injected(body)[k - 1]))
  {
    var k := InsertionIndex(body);
    var r := Injected(body);
    assert r[..k] == body[..k];
    assert r[k + 1..] == body[k..];
  }

  /** After the splice a `prop-types` import exists, so a second injection is a no-op. */
  lemma InjectedCounts(body: seq<Stmt>)
    ensures CountImportsFrom(Injected(body), PropTypesModule) == CountImportsFrom(body, PropTypesModule) + 1
    ensures HasImportFrom(Injected(body), PropTypesModule)
  {
    var k := InsertionIndex(body);
    var pre, post := body[..k], body[k..];
    assert body == pre + post;
    CountImportsFromConcat(pre + [PropTypesImport()], post, PropTypesModule);
    CountImportsFromConcat(pre, [PropTypesImport()], PropTypesModule);
    CountImportsFromConcat(pre, post, PropTypesModule);
    assert Injected(body)[k] == PropTypesImport();
  }

  /** The splice adds no `React.PropTypes` and no deprecated import. */
  lemma InjectedKeepsUsage(body: seq<Stmt>)
    ensures OccurrencesIn(Injected(body)) == OccurrencesIn(body)
    ensures ChainUsesIn(Injected(body)) == ChainUsesIn(body)
  {
    var k := InsertionIndex(body);
    var pre, post := body[..k], body[k..];
    assert body == pre + post;
    UsageConcat(pre + [PropTypesImport()], post);
    UsageConcat(pre, [PropTypesImport()]);
    UsageConcat(pre, post);
    ImportsOnlyHaveNoUsage([PropTypesImport()]);
  }

  lemma InjectedKeepsDeprecated(body: seq<Stmt>)
    ensures HasDeprecatedImport(Injected(body)) == HasDeprecatedImport(body)
  {
    var k := InsertionIndex(body);
    var r := Injected(body);
    if HasDeprecatedImport(r) {
      var i :| 0 <= i < |r| && IsDeprecatedImport(r[i]);
      if i < k {
        assert r[i] == body[i];
      } else {
        assert i != k;
        assert r[i] == body[i - 1];
      }
    }
    if HasDeprecatedImport(body) {
      var i :| 0 <= i < |body| && IsDeprecatedImport(body[i]);
      if i < k {
        assert r[i] == body[i];
      } else {
        assert r[i + 1] == body[i];
      }
    }
  }
}
