/**
 * The syntax-tree front end: which paths `updateFile` accepts and which
 * extensions it probes, which directory entries `updateFolder` hands on, and
 * when a transformed file is written back.
 */
module AstHelper {
  import opened Wrappers
  import opened Seqs
  import opened Strings
  import opened Ast
  import opened Helper
  import opened AstTransformer

  /** The extensions tried, in order, for a path given without one. */
  const Extensions: seq<string> := [".js", ".jsx", ".ts", ".tsx"]

  /** `\S+\.(jsx?|tsx?)$` */
  predicate IsSourcePath(p: string) {
    EndsWithExtension(p, ".js") || EndsWithExtension(p, ".jsx")
    || EndsWithExtension(p, ".ts") || EndsWithExtension(p, ".tsx")
  }

  /**
   * The checks at the top of `updateFile`: an empty path is rejected, a path
   * with a dot must be a source path, and a path without one gets the first
   * extension whose file exists. `fileExists` stands for the `stat` probe.
   */
  method UpdateFileTarget(fileAndPath: string, fileExists: string -> bool) returns (t: FileTarget)
    ensures fileAndPath == "" ==> t == NoPath
    ensures fileAndPath != "" && '.' in fileAndPath ==> t == if IsSourcePath(fileAndPath) then Target(fileAndPath) else Skipped
    ensures fileAndPath != "" && '.' !in fileAndPath ==> t == FirstExisting(fileAndPath, Extensions, fileExists)
  {
    if fileAndPath == "" {
      return NoPath;
    }
    var targetPath := fileAndPath;
    if '.' in targetPath {
      if !IsSourcePath(targetPath) {
        return Skipped;
      }
    } else {
      var found := false;
      var i := 0;
      while i < |Extensions|
        invariant 0 <= i <= |Extensions|
        invariant !found ==> targetPath == fileAndPath
        invariant !found ==> FirstExisting(fileAndPath, Extensions, fileExists) == FirstExisting(fileAndPath, Extensions[i..], fileExists)
        invariant found ==> Target(targetPath) == FirstExisting(fileAndPath, Extensions, fileExists)
      {
        var ext := Extensions[i];
        assert Extensions[i..][1..] == Extensions[i + 1..];
        if fileExists(targetPath + ext) {
          targetPath := targetPath + ext;
          found := true;
          break;
        }
        i := i + 1;
      }
      if !found {
        assert Extensions[i..] == [];
        return NotFound;
      }
    }
    return Target(targetPath);
  }

  /** Every file the check lets through is a `.js`, `.jsx`, `.ts` or `.tsx` file, and only existing ones are probed into. */
  lemma UpdateFileTargetExtension(fileAndPath: string, fileExists: string -> bool, t: FileTarget)
    requires fileAndPath != ""
    requires '.' in fileAndPath ==> t == if IsSourcePath(fileAndPath) then Target(fileAndPath) else Skipped
    requires '.' !in fileAndPath ==> t == FirstExisting(fileAndPath, Extensions, fileExists)
    ensures t.Target? ==> exists i :: 0 <= i < |Extensions| && EndsWith(t.path, Extensions[i])
    ensures t.Target? && '.' !in fileAndPath ==> fileExists(t.path)
    ensures t.NotFound? <==> '.' !in fileAndPath && forall i :: 0 <= i < |Extensions| ==> !fileExists(fileAndPath + Extensions[i])
  {
    if '.' !in fileAndPath {
      FirstExistingChoice(fileAndPath, Extensions, fileExists);
      if t.Target? {
        var i :| 0 <= i < |Extensions| && t == Target(fileAndPath + Extensions[i]) && fileExists(fileAndPath + Extensions[i]);
        EndsWithPrepend(fileAndPath, Extensions[i]);
      }
    } else if t.Target? {
      assert EndsWith(t.path, Extensions[0]) || EndsWith(t.path, Extensions[1])
          || EndsWith(t.path, Extensions[2]) || EndsWith(t.path, Extensions[3]);
    }
  }

  /** `/\.(jsx?|tsx?)$/`: the folder filter asks only for the ending. */
  predicate IsSupportedFile(f: string) {
    EndsWith(f, ".js") || EndsWith(f, ".jsx") || EndsWith(f, ".ts") || EndsWith(f, ".tsx")
  }

  /** The entries of a folder that `updateFolder` passes to `updateFile`. */
  function SupportedFiles(files: seq<string>): seq<string>
  {
    Filter(files, IsSupportedFile)
  }

  /** Exactly the supported names are kept, and each part of the listing keeps its own in order. */
  lemma SupportedFilesExact(files: seq<string>, more: seq<string>)
    ensures forall i :: 0 <= i < |SupportedFiles(files)| ==> SupportedFiles(files)[i] in files && IsSupportedFile(SupportedFiles(files)[i])
    ensures forall i :: 0 <= i < |files| && IsSupportedFile(files[i]) ==> files[i] in SupportedFiles(files)
    ensures SupportedFiles(files + more) == SupportedFiles(files) + SupportedFiles(more)
    ensures (forall i :: 0 <= i < |files| ==> IsSupportedFile(files[i])) ==> SupportedFiles(files) == files
  {
    FilterConcat(files, more, IsSupportedFile);
    if forall i :: 0 <= i < |files| ==> IsSupportedFile(files[i]) {
      FilterAll(files, IsSupportedFile);
    }
  }

  /**
   * Every path `updateFile` accepts passes the folder filter, but not the
   * other way round: a file named ` .js` is handed on by the folder walk and
   * then skipped, since no non-blank character precedes its dot.
   */
  lemma SourcePathIsSupported(p: string)
    ensures IsSourcePath(p) ==> IsSupportedFile(p)
    ensures IsSupportedFile(" .js") && !IsSourcePath("src/ .js")
  {
    assert "src/ .js"[4] == ' ';
    assert !EndsWith("src/ .js", ".jsx") && !EndsWith("src/ .js", ".ts") && !EndsWith("src/ .js", ".tsx");
  }

  /**
   * `writeFileAsyncAST` on the text read from the file (`None` when the
   * read fails): the transformed text is written only when the analysis asks
   * for the migration, the migration reports a change, and the new text is
   * not empty. Returns what is written.
   */
  method WriteFileAST(data: Option<string>, fileAndPath: string,
                      parse: (string, string) -> ParseResult, generate: seq<Stmt> -> Option<string>)
    returns (written: Option<string>)
    ensures written.Some? <==>
              data.Some? && parse(data.value, fileAndPath).Parsed?
              && BodyNeedsTransformation(parse(data.value, fileAndPath).body)
              && BodyModified(parse(data.value, fileAndPath).body)
              && generate(TransformedBody(parse(data.value, fileAndPath).body)).Some?
              && generate(TransformedBody(parse(data.value, fileAndPath).body)).value != ""
    ensures written.Some? ==> written.value == generate(TransformedBody(parse(data.value, fileAndPath).body)).value
  {
    if data.None? {
      return None;
    }
    var dataString := data.value;
    var needed := NeedsTransformation(dataString, fileAndPath, parse);
    if !needed {
      return None;
    }
    var result := TransformWithAST(dataString, fileAndPath, parse, generate);
    if result.modified && result.code != "" {
      return Some(result.code);
    }
    return None;
  }
}
