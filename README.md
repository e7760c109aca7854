# move-prop-types in Dafny

`move-prop-types` is a command-line tool that migrates React code from
`React.PropTypes` to the standalone `prop-types` package. This project models
its core, and the two maintenance scripts the repository ships, and proves
properties about that model.

**The syntax-tree migration**
- Over an abstract tree of import declarations and member expressions.
- The file `src/ast-transformer.ts`.
- `Program` is a class whose statement list the four passes edit in place, as the source's passes edit the parsed file:
  - the analyzer;
  - the import rewriter;
  - the member rewriter;
  - the import injector.
- `TransformWithAST` and `NeedsTransformation` run the pipeline.
- The parser and the code generator are function parameters.

**The command-line front ends**
- `src/helper.ts` and `src/ast-helper.ts`:
  - the flag lookup `findMatch`;
  - the path and extension checks at the top of `updateFile`;
  - the folder filter;
  - the write gate of `writeFileAsyncAST`.
- `src/core.ts`: `runCLI`, which copies the arguments, injects `--help` and dispatches. The option parser is a parameter.

**The build step** (`src/updateFile.ts`)
- It prepends the `node` shebang line to a file that lacks it.

**The workflow monitor** (`scripts/monitor-workflows.js`)
- How a run's status and a duration are displayed.
- The summary flags and counts of a list of runs.
- The retry counter that the `WorkflowMonitor` object keeps across its commands. This is a class with `retryCount` and `isRunning` fields.

**The missing-versions publisher** (`scripts/publish-missing-versions.js`)
- Tag normalisation and the missing-version set difference.
- The semver comparator, as a method with its loop.
- The success/failure tally of a publishing run.

Shared JavaScript behaviour is defined once:
- `Seqs`: `filter` and `findIndex`;
- `Strings`: `trim`, `split`, `join`, `startsWith` and `toUpperCase`;
- `Numbers`: `parseInt` and number-to-text conversion.

Every command a script runs is modelled only by whether it succeeds (a `succeeds` predicate, or a flag per attempt) and by the text it prints. In these places the code behaves in ways a reader may not expect, and the model follows it:
- The injector inserts the `prop-types` import after the **first** React import (`src/ast-transformer.ts:211-219`).
- The injector is consulted whenever `React.PropTypes` is used (`src/ast-transformer.ts:260-263`), whether or not a use was rewritten.
   - A bare `React.PropTypes` is therefore left in place.
   - Yet `prop-types` is still imported and the file is reported modified (`AstTransformer.BareUseKept`).
- A second run of the migration changes nothing, unless an import names `PropTypes` twice. Only the first such specifier is removed (`ImportRewrite.DuplicateSpecifierSurvives`), so idempotence holds only under `SinglePropTypesPerImport`.
- `modified = false` does not mean the output text equals the input: the generator still re-prints the tree.
- A chain such as `x.React.PropTypes.y` is never rewritten. The rewriter only matches `React.PropTypes` whose object is the identifier `React`.
- `findMatch` in `src/ast-helper.ts:201-216` is a copy of the one in `src/helper.ts:237-249`. `Helper.FindMatch` models both.

## Model

| member | source | states |
|---|---|---|
| Ast.PropTypesImport | src/ast-transformer.ts:135-138 | the created statement imports from `prop-types` and is not a React import |
| Ast.CountImportsFromPositive | src/ast-transformer.ts:192-200 | some import has the source exactly when the count of such imports is positive |
| AstTransformer.Program.constructor | src/ast-transformer.ts:242 | the program object holds the parsed statement list |
| AstTransformer.Program.AnalyzePropTypesUsage | src/ast-transformer.ts:74-109 | the import signal is true iff some React import has a named `PropTypes` specifier; the member signal is true iff `React.PropTypes` occurs; needsTransformation is their OR |
| AstTransformer.Program.TransformES6Imports | src/ast-transformer.ts:115-154 | the new body is the import rewrite of the old, and the result is true iff a deprecated import was there |
| AstTransformer.Program.TransformReactPropTypesUsage | src/ast-transformer.ts:159-182 | the new body has every chained `React.PropTypes` replaced, and the result is true iff there was a chained use |
| AstTransformer.Program.AddPropTypesImportIfNeeded | src/ast-transformer.ts:187-231 | adds the import (spliced after the first React import) iff usage is flagged and no `prop-types` import exists; otherwise the body is unchanged |
| AstTransformer.TransformWithAST | src/ast-transformer.ts:236-285 | a parse failure, a body with neither signal, or a generator that throws returns the input unmodified; otherwise the generated text of the transformed tree, with the OR of the pass results |
| AstTransformer.NeedsTransformation | src/ast-transformer.ts:290-298 | true iff the text parses and the body raises a signal; a parse failure gives false |
| AstTransformer.VisitStatement | src/ast-transformer.ts:120-150 | one visit replaces the statement at the cursor by its step and moves the cursor past it, reporting whether it was edited |
| AstTransformer.VisitReactImport | src/ast-transformer.ts:122-148 | a React import at the cursor is replaced by its edited form plus the new import when not yet added, and removed when left empty |
| AstTransformer.EditReactImport | src/ast-transformer.ts:127-146 | a React import holding a `PropTypes` specifier is replaced by its edited form plus the new import when not yet added, and removed when left empty |
| AstTransformer.StepOfUneditedImport | src/ast-transformer.ts:123-128 | a React import without a `PropTypes` specifier is kept as it is |
| AstTransformer.StepOfEditedImport | src/ast-transformer.ts:128-147 | an edited import yields the kept form followed by the new import only on the first edit |
| AstTransformer.ImportSignalsAfterImportPass | src/ast-transformer.ts:133-142 | after the import pass a `prop-types` import exists iff one existed or an import was edited |
| AstTransformer.TransformedImportCount | src/ast-transformer.ts:133-142 | the migration adds at most one `prop-types` import, and one exists afterwards whenever `React.PropTypes` was used |
| AstTransformer.TransformedUsage | src/ast-transformer.ts:165-176 | no chained use survives, and the remaining occurrences are exactly the bare ones |
| AstTransformer.TransformedIdempotent | src/ast-transformer.ts:248-263 | without a doubled `PropTypes` specifier, re-running the migration reports no change and leaves the tree unchanged |
| AstTransformer.ChainedUseRewritten | src/ast-transformer.ts:170-174 | `React.PropTypes.string.isRequired` becomes `PropTypes.string.isRequired` |
| AstTransformer.BareUseKept | src/ast-transformer.ts:172 | a bare `React.PropTypes` stays, yet `prop-types` is imported and the result is modified; with the import present it is not modified |
| ImportRewrite.FindPropTypesSpecifier | src/ast-transformer.ts:123-126 | the index of the first named `PropTypes` specifier, or -1 iff there is none |
| ImportRewrite.StripPropTypes | src/ast-transformer.ts:130 | one specifier fewer; those before the found one keep their index and those after it move down by one, so exactly the found one is removed and the others keep their order |
| ImportRewrite.StripPropTypesShape | src/ast-transformer.ts:130 | one specifier fewer, and the multiset loses exactly the found one |
| ImportRewrite.ImportsRewrittenNoop | src/ast-transformer.ts:122-128 | a body without a deprecated import is unchanged |
| ImportRewrite.ImportsRewrittenShape | src/ast-transformer.ts:119-151 | before the first deprecated import nothing changes; that import is replaced by its edited form and the single new import; later ones are only edited |
| ImportRewrite.ImportsRewrittenAt | src/ast-transformer.ts:119-151 | the same shape, for the first deprecated import at a given index |
| ImportRewrite.ImportsRewrittenCount | src/ast-transformer.ts:133-142 | the `prop-types` import count grows by one iff some import was edited |
| ImportRewrite.ImportsRewrittenKeepsCode | src/ast-transformer.ts:119-151 | non-import statements are unchanged and in order |
| ImportRewrite.ImportsRewrittenKeepsUsage | src/ast-transformer.ts:119-151 | the `React.PropTypes` counts are unchanged by the import pass |
| ImportRewrite.ImportsRewrittenClean | src/ast-transformer.ts:123-131 | when no import names `PropTypes` twice, no deprecated import survives |
| ImportRewrite.StepClean | src/ast-transformer.ts:123-131 | visiting one import that names `PropTypes` at most once leaves no deprecated import behind |
| ImportRewrite.DuplicateSpecifierSurvives | src/ast-transformer.ts:123-131 | an import naming `PropTypes` twice keeps the second specifier and stays deprecated |
| ImportInjection.InsertionIndex | src/ast-transformer.ts:208-220 | one past the first React import, or 0 iff there is none |
| ImportInjection.InjectedShape | src/ast-transformer.ts:229 | one statement is added, the `prop-types` import, at the insertion index; removing it gives back the body |
| ImportInjection.InjectedCounts | src/ast-transformer.ts:192-204 | the `prop-types` count grows by one, so a second injection is refused |
| ImportInjection.InjectedKeepsUsage | src/ast-transformer.ts:229 | the splice adds no `React.PropTypes` occurrence |
| ImportInjection.InjectedKeepsDeprecated | src/ast-transformer.ts:229 | the splice neither adds nor removes a deprecated import |
| MemberRewrite.RewriteNotObject | src/ast-transformer.ts:172 | outside object position the rewrite yields an identifier iff it was given one, and identifiers are kept |
| MemberRewrite.RewriteObject | src/ast-transformer.ts:172-174 | in object position a member expression can only become the identifier `PropTypes`, and identifiers are kept |
| MemberRewrite.RewriteCounts | src/ast-transformer.ts:162-179 | occurrences drop by exactly the chained uses, and none remains chained |
| MemberRewrite.RewriteChangesIff | src/ast-transformer.ts:175 | the rewriter changes a tree iff it holds a chained use |
| MemberRewrite.RewriteIdempotent | src/ast-transformer.ts:162-179 | rewriting twice equals rewriting once |
| MemberRewrite.MembersRewrittenCounts | src/ast-transformer.ts:162-179 | over a body, occurrences drop by exactly the chained uses |
| MemberRewrite.MembersRewrittenIdentity | src/ast-transformer.ts:162-179 | a body without chained uses is unchanged |
| MemberRewrite.MembersRewrittenKeepsImports | src/ast-transformer.ts:162-163 | import declarations keep their place and contents |
| MemberRewrite.MembersRewrittenKeepsImportSignals | src/ast-transformer.ts:192-200 | the import signals and import counts are those of the original body |
| Helper.IndexOf | src/helper.ts:245 | the first index holding the value, or -1 iff it does not occur |
| Helper.LastFlag | src/helper.ts:243-247 | the index of the last flag, or -1 iff there is no flag |
| Helper.FindMatch | src/helper.ts:237-249 | returns the lookup value, defined from the first occurrence of the last flag seen |
| Helper.FindMatchNoFlag | src/helper.ts:242-249 | no flag in the list gives `''` |
| Helper.FindMatchAfterFlag | src/helper.ts:243-249 | the last flag, when its spelling does not occur earlier, yields the element after it, or `''` when it ends the list |
| Helper.FindMatchResult | src/helper.ts:249 | the result is `''` or an element directly after a flag |
| Helper.FindMatchUsesFirstOccurrence | src/helper.ts:245 | with `-P` given twice the earlier value wins |
| Helper.FirstExistingChoice | src/helper.ts:155-170 | the first extension whose file exists is chosen; NotFound iff none exists |
| Helper.UpdateFileTarget | src/helper.ts:137-171 | rejects an empty path; a dotted path must end in `.js`/`.jsx`; an undotted one probes `.js` then `.jsx` |
| Helper.UpdateFileTargetExtension | src/helper.ts:146-170 | every accepted file ends in `.js` or `.jsx`; NotFound only when both probes fail |
| AstHelper.UpdateFileTarget | src/ast-helper.ts:89-128 | rejects an empty path; a dotted path must be a source path; an undotted one probes `.js`, `.jsx`, `.ts`, `.tsx` in order |
| AstHelper.UpdateFileTargetExtension | src/ast-helper.ts:97-127 | every accepted file has a supported extension, a probed one exists, and NotFound iff every probe fails |
| AstHelper.SupportedFilesExact | src/ast-helper.ts:158-160 | exactly the supported names are kept, in order |
| AstHelper.SourcePathIsSupported | src/ast-helper.ts:98 | every path `updateFile` accepts passes the folder filter; the name ` .js` passes the filter although a path ending in it is skipped |
| AstHelper.WriteFileAST | src/ast-helper.ts:59-80 | writes iff the read succeeds, the analysis asks for the migration, it reports a change, the generator succeeds and the text is non-empty; what is written is the generated tree |
| Core.RunCLI | src/core.ts:38-70 | the copy is the arguments with `--help` when no option is known; a parser that exits runs nothing; otherwise the actions follow the options |
| Core.WithHelpShape | src/core.ts:42-49 | the arguments are a prefix of the copy, which gains `--help` iff no known option is present |
| Core.HelpLookupsEmpty | src/core.ts:43-52 | with `--help` injected neither lookup finds a value |
| Core.CliActionsOrder | src/core.ts:59-69 | install, file and folder run in that order, each at most once, each iff its option or lookup is non-empty, with a non-empty argument |
| Shebang.ShebangRewrite | src/updateFile.ts:19-25 | nothing is written iff the text already starts with the shebang |
| Shebang.ContentsShape | src/updateFile.ts:19-25 | the result starts with the shebang and ends with the old text, one line longer when it was added |
| Shebang.ShebangIdempotent | src/updateFile.ts:19-22 | a second run writes nothing |
| Shebang.UpdateScript | src/updateFile.ts:8-30 | a missing file name ends the script iff there is no third argument or it is empty; given a name, the read fails iff the file cannot be read, the script reports the shebang present iff the text starts with it, and writes iff the text was read and lacks it; a write goes to that file with the shebang line prepended |
| Shebang.MissingNameReadsNothing | src/updateFile.ts:8-13 | without a file name the outcome does not depend on the file system |
| MonitorWorkflows.FormatStatusReadBack | scripts/monitor-workflows.js:178-182 | the text shows the table style of the effective status, that status upper-cased, and ends with the reset code |
| MonitorWorkflows.FormatStatusConclusionFirst | scripts/monitor-workflows.js:179 | a present conclusion decides alone; a missing one falls back to the status |
| MonitorWorkflows.FormatStatusSymbol | scripts/monitor-workflows.js:30-40 | the symbol is `?` iff the effective status is not in the table, and the color is red iff it is `failure` |
| MonitorWorkflows.FormatStatusDistinguishes | scripts/monitor-workflows.js:181 | statuses without capitals display equal iff they are equal |
| MonitorWorkflows.FormatDurationFields | scripts/monitor-workflows.js:192-194 | seconds alone under a minute; minutes and seconds below 60 up to an hour; hours and minutes below 60 beyond |
| MonitorWorkflows.FormatDurationReadBack | scripts/monitor-workflows.js:190-194 | reading the text back gives the duration, rounded down to the minute from an hour on |
| MonitorWorkflows.DisplayWorkflows | scripts/monitor-workflows.js:207-221 | allComplete iff no run is in progress or queued; anyFailed iff some conclusion is `failure`; the counts are the filter sizes at lines 246-248 |
| MonitorWorkflows.FetchAsWrittenBounded | scripts/monitor-workflows.js:149-155 | the retry count never exceeds `maxRetries`, and giving up leaves it at `maxRetries` |
| MonitorWorkflows.FetchNeverGivesUp | scripts/monitor-workflows.js:140-157 | while `git` works the fetch never gives up, however many attempts fail |
| MonitorWorkflows.FetchRetriesPastLimit | scripts/monitor-workflows.js:140-157 | ten failing attempts with `git` working leave the monitor still retrying |
| MonitorWorkflows.FetchNotFetched | scripts/monitor-workflows.js:146-155 | without a successful `gh` command nothing is fetched |
| MonitorWorkflows.FetchCorrectedEnds | scripts/monitor-workflows.js:149-155 | with only a completed fetch resetting the count, the fetch ends within `maxRetries - retry + 1` attempts |
| MonitorWorkflows.FetchAgreeOnSuccess | scripts/monitor-workflows.js:146-147 | both versions fetch at once, count 0, when the first attempt succeeds |
| MonitorWorkflows.WorkflowMonitor.constructor | scripts/monitor-workflows.js:53-56 | the count starts at 0 and the monitor is running |
| MonitorWorkflows.WorkflowMonitor.ExecCommand | scripts/monitor-workflows.js:68-83 | success resets the count and yields the trimmed output; failure leaves the count and yields nothing |
| MonitorWorkflows.WorkflowMonitor.GetCurrentBranch | scripts/monitor-workflows.js:88-94 | the trimmed `git` output, or `main` when it fails; the count resets on success |
| MonitorWorkflows.WorkflowMonitor.FetchWorkflowRuns | scripts/monitor-workflows.js:140-157 | outcome and count are those of the attempts as the code runs them, and the count stays within `maxRetries` |
| Numbers.DecimalValueOfString | scripts/monitor-workflows.js:192-194 | the decimal text of an integer reads back as that integer |
| Numbers.ParseIntToString | scripts/publish-missing-versions.js:130 | `parseInt` of an integer's text (followed by a non-digit) gives that integer |
| Numbers.ParseIntNaN | scripts/publish-missing-versions.js:130 | text whose first character after white space and an optional sign is no decimal digit is NaN |
| Numbers.ParseIntOfLabels | scripts/publish-missing-versions.js:130 | the pre-release labels `beta`, `alpha` and `rc` read as NaN |
| Strings.TrimStart | scripts/publish-missing-versions.js:16 | the result is a suffix of the input, everything removed is white space, and it does not start with white space |
| Strings.TrimEnd | scripts/publish-missing-versions.js:16 | the result is a prefix of the input, everything removed is white space, and it does not end with white space |
| Strings.TrimShape | scripts/publish-missing-versions.js:16 | the trimmed text is the slice of the input between the removed leading and trailing white space |
| Strings.TrimIdempotent | scripts/monitor-workflows.js:75 | neither end of the trimmed text is white space, and trimming it again changes nothing |
| Strings.SplitJoin | scripts/publish-missing-versions.js:30 | joining pieces without the separator and splitting again gives the pieces |
| Strings.ToUpper | scripts/monitor-workflows.js:181 | the upper-cased text maps each letter through the ASCII case table |
| Seqs.Filter | scripts/publish-missing-versions.js:117 | the kept elements are input elements passing the test, and every passing element is kept |
| PublishMissingVersions.GitHubReleases | scripts/publish-missing-versions.js:27-35 | one version per non-empty line of the trimmed output |
| PublishMissingVersions.GitHubReleasesShape | scripts/publish-missing-versions.js:30 | each version is a non-empty line with at most one leading `v` removed, and every non-empty line yields one |
| PublishMissingVersions.GitHubReleasesOfTags | scripts/publish-missing-versions.js:30 | normalising the `v<tag>` listing gives back the tags, in order |
| PublishMissingVersions.MissingVersionsMembers | scripts/publish-missing-versions.js:117 | a version is missing iff GitHub has it and npm does not (the same filter as line 219) |
| PublishMissingVersions.MissingVersionsOrder | scripts/publish-missing-versions.js:117 | the selection keeps GitHub's order |
| PublishMissingVersions.MissingVersionsExtremes | scripts/publish-missing-versions.js:117-122 | with npm empty everything is missing; with npm listing all, nothing is |
| PublishMissingVersions.Parts | scripts/publish-missing-versions.js:130-131 | one numeric part per dot-separated piece |
| PublishMissingVersions.Compare | scripts/publish-missing-versions.js:128-143 | the loop with its early return computes the comparator's value |
| PublishMissingVersions.PartsDiffZero | scripts/publish-missing-versions.js:133-137 | the loop falls through iff the parts agree at every position, absent parts reading as 0 |
| PublishMissingVersions.PartsDiffAt | scripts/publish-missing-versions.js:133-137 | the first differing position decides, by its difference |
| PublishMissingVersions.FirstDifferenceDecides | scripts/publish-missing-versions.js:133-137 | the comparator returns the difference at the first differing position |
| PublishMissingVersions.EqualPartsFallThrough | scripts/publish-missing-versions.js:140-142 | with equal parts a version with `-` sorts first, and otherwise `localeCompare` decides |
| PublishMissingVersions.VersionCompareAntisymmetric | scripts/publish-missing-versions.js:128-143 | swapping the versions flips the sign, when `localeCompare` does |
| PublishMissingVersions.VersionCompareReflexive | scripts/publish-missing-versions.js:128-143 | a version compares with itself as `localeCompare` does |
| PublishMissingVersions.PartsOfNumericVersion | scripts/publish-missing-versions.js:130-131 | a version written from numbers reads back as those numbers, and contains no `-` |
| PublishMissingVersions.NumericVersionsCompareByNumbers | scripts/publish-missing-versions.js:130-137 | numeric versions are ordered by their numbers position by position, not by their text |
| PublishMissingVersions.NumericVersionsZeroPadding | scripts/publish-missing-versions.js:134-135 | trailing zero parts make no difference before the tie-break |
| PublishMissingVersions.PartValueBeforeLabel | scripts/publish-missing-versions.js:130 | a piece `n-label` reads as `n`, the text before its first `-` |
| PublishMissingVersions.PartsOfDottedPrerelease | scripts/publish-missing-versions.js:130 | `n1.….nk-label.m` reads as the numbers followed by an extra part `m` |
| PublishMissingVersions.DottedPrereleaseSortsAfterRelease | scripts/publish-missing-versions.js:130-141 | as written, `1.0.0-beta.1` and the like sort after their release |
| PublishMissingVersions.PrereleaseSortsBeforeRelease | scripts/publish-missing-versions.js:140-141 | reading the numbers before the first `-`, every pre-release sorts before its release |
| PublishMissingVersions.DottedPrereleaseCorrected | scripts/publish-missing-versions.js:140-141 | the corrected comparator puts the dotted pre-release first |
| PublishMissingVersions.CorrectedAgreesOnReleases | scripts/publish-missing-versions.js:130-142 | without `-` the corrected comparator is the one as written |
| PublishMissingVersions.PublishOutcomeCounts | scripts/publish-missing-versions.js:147-170 | success plus failure counts equal the number of versions; exit code 1 iff some version failed |
| PublishMissingVersions.Publish | scripts/publish-missing-versions.js:147-180 | the intended run (corrected member of the `exec` finding): the loop counts the versions that publish and those that fail, the counts add up to the number of versions, the exit code is 1 iff failureCount > 0, and the restore command always runs |
| PublishMissingVersions.PublishAsWrittenNeverCountsFailures | scripts/publish-missing-versions.js:13-22 | as written no failure is counted, and the branch is restored only when everything succeeded |
| PublishMissingVersions.PublishAsWrittenWhenAllSucceed | scripts/publish-missing-versions.js:147-180 | when every command succeeds, the script as written has the intended outcome |
| PublishMissingVersions.FirstFailureEndsScript | scripts/publish-missing-versions.js:66-91 | a failing first checkout stops the script with exit 1, nothing counted and the branch not restored, where the intended run counts one success and one failure and restores the branch |

## Left out

- Babel parsing, traversal and code generation (`src/ast-transformer.ts:38-69, 266-273`) are function parameters; the generator returns `None` when it throws. Output formatting, quoting and comments are not modelled, nor is the identity of tree nodes.
- AstTransformer.TransformWithAST: an exception thrown by Babel's traversal inside one of the passes is not modelled; the passes are total here, so only a parse or generator failure reaches the `catch` at `src/ast-transformer.ts:280-284`.
- Shebang.UpdateScript: a failing `writeFile` (caught at `src/updateFile.ts:26-30`) is not modelled; the outcome `Written` stands for the attempt to write.
- Optional member expressions, JSX member names and TypeScript qualified names are opaque nodes.
  - The parser gives them different node types, so the visitors never match them.
  - TypeScript `module` blocks are also opaque.
  - The `importKind` of a type-only import is not modelled.
- Computed member expressions carry a flag that nothing reads, as in the source. `React['PropTypes']` fails the identifier check there too.
- The regex text-substitution path (`writeFileAsyncEs6`/`writeFileAsyncEs5` in `src/helper.ts:64-132`) and the patterns in `src/constants.ts` are left out. They depend on JavaScript regex state.
- File reads and writes, `stat`, directory walking:
  - the recursion of `updateFolder` is left out; only its file filter is modelled;
  - console and colour output is left out;
  - so are `installPackage` and `helpExamples`, which only print or shell out.
- Commander's configuration and parsing (`src/core.ts:18-36`) are a parameter that either exits or returns options.
- `monitor()`, `triggerWorkflow`, `getWorkflowDetails`, the sleeps and the signal handler of the workflow monitor are left out. They are I/O and timing.
- The `getCurrentBranch` call inside `displayWorkflows` (`scripts/monitor-workflows.js:204`) also resets `retryCount`. It is not modelled as part of `DisplayWorkflows`, which computes only the flags and counts.
- MonitorWorkflows.FormatDuration: starts from a whole number of seconds. The `Date` arithmetic and a NaN duration from an unparsable date are left out.
- MonitorWorkflows.FormatStatus: a status and conclusion that are both `null` make `toUpperCase` throw; the model takes strings. Only ASCII letters are upper-cased.
- The status table is a Dafny map, so inherited object keys such as `constructor` are not modelled. On such keys the script's lookup would not give the gray `?` entry.
- Numbers.ParseInt: models leading white space, the sign, the `0x` prefix and the digit prefix. It does not model the loss of precision above 2^53.
- The JSON parsing of `gh` and `npm` output is not modelled.
  - `MissingVersions` takes the npm list as a list of strings.
  - `npm view --json` prints a single string when there is one version. `includes` would then test substrings; that case is not modelled.
- The sort itself (`Array.prototype.sort`) is left out. Only its comparator is modelled; `localeCompare` is an opaque parameter.
- `checkNpmAuth` and the `exec` calls before the publishing loop (`scripts/publish-missing-versions.js:53-61, 100-105`) exit the process on failure; they are not modelled separately. The same `exec` behaviour makes their `catch` branches unreachable, as in the finding below.
- The `--help` and `--dry-run` command-line branches of the publisher print and exit. The dry run's selection is the same `MissingVersions`.
- `build/mpt.js`, the legacy `src/*.js` files and `scripts/create-missing-releases.js` are not part of this model.
- MonitorWorkflows.WorkflowMonitor.FetchWorkflowRuns: follows the code as written. The corrected retry rule is stated on values, as `FetchCorrected`.

## Findings

| source | as written | input that shows it | evidently intended | confidence | as-written member | corrected member |
|---|---|---|---|---|---|---|
| scripts/monitor-workflows.js:140-157 | every attempt first calls `getCurrentBranch`, whose successful `execCommand` resets `retryCount` to 0, so the count never reaches `maxRetries` | `git` works and `gh` fails ten times in a row: the monitor is still retrying | give up after `maxRetries` failed attempts in a row | not executed; high | MonitorWorkflows.FetchRetriesPastLimit | MonitorWorkflows.FetchCorrectedEnds |
| scripts/publish-missing-versions.js:13-22 | `exec` calls `process.exit(1)` instead of throwing. So `publishVersion` never returns false, the first failing command ends the script with nothing counted, and the `finally` block never restores the branch. | versions `1.0.0`, `1.0.1` with `git checkout v1.0.0` failing: exit 1, zero successes, zero failures, branch not restored | count the failure, publish `1.0.1`, restore the branch, exit 1 | not executed; high | PublishMissingVersions.FirstFailureEndsScript | PublishMissingVersions.Publish |
| scripts/publish-missing-versions.js:130-131 | every dot-separated piece counts as a numeric part, so the number after a dotted pre-release label becomes an extra part | `1.0.0-beta.1` against `1.0.0` compares as 1: the pre-release sorts after its release | numeric parts come from the text before the first `-`, so a pre-release sorts before its release | not executed; medium | PublishMissingVersions.DottedPrereleaseSortsAfterRelease | PublishMissingVersions.PrereleaseSortsBeforeRelease |

On the second finding: `process.exit(1)` at line 167 also sits inside the `try`. So even an `exec` that threw would leave the branch unrestored after a failure. `Publish` restores it in every case, as the `finally` block intends.
