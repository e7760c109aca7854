/**
 * The build step that makes the bundled command executable: prepend the
 * `node` shebang line to a file unless the file already starts with it.
 */
module Shebang {
  import opened Wrappers
  import opened Strings

  const ShebangLine: string := "#!/usr/bin/env node"

  /** The text to write for the file contents `data`, or `None` when nothing is written. */
  function ShebangRewrite(data: string): (r: Option<string>)
    ensures r.None? <==> StartsWith(data, ShebangLine)
  {
    if StartsWith(data, ShebangLine) then None else Some(ShebangLine + "\n" + data)
  }

  /** The file contents once the step has run. */
  function Contents(data: string): string
  {
    match ShebangRewrite(data)
    case None => data
    case Some(text) => text
  }

  /** After the step the file starts with the shebang, and the old contents are its exact suffix. */
  lemma ContentsShape(data: string)
    ensures StartsWith(Contents(data), ShebangLine)
    ensures EndsWith(Contents(data), data)
    ensures !StartsWith(data, ShebangLine) ==> |Contents(data)| == |ShebangLine| + 1 + |data|
    ensures StartsWith(data, ShebangLine) ==> Contents(data) == data
  {
    if !StartsWith(data, ShebangLine) {
      StartsWithAppend(ShebangLine, "\n" + data);
      assert ShebangLine + "\n" + data == ShebangLine + ("\n" + data);
      EndsWithPrepend(ShebangLine + "\n", data);
    } else {
      assert data[|data| - |data|..] == data;
    }
  }

  /** Running the step on its own output writes nothing. */
  lemma ShebangIdempotent(data: string)
    ensures ShebangRewrite(Contents(data)) == None
    ensures Contents(Contents(data)) == Contents(data)
  {
    ContentsShape(data);
  }

  /** How the script ends. */
  datatype ScriptOutcome = MissingFileName | ReadFailed | AlreadyHasShebang | Written(path: string, text: string)

  /**
   * The whole script for the process arguments `argv` (the file name is the
   * first one after the interpreter and the script), with `readFile` standing
   * for the read (`None` on failure).
   */
  function UpdateScript(argv: seq<string>, readFile: string -> Option<string>): (o: ScriptOutcome)
    ensures o.MissingFileName? <==> |argv| <= 2 || argv[2] == ""
    ensures |argv| > 2 && argv[2] != "" ==>
              (o == ReadFailed <==> readFile(argv[2]).None?)
              && (o == AlreadyHasShebang <==> readFile(argv[2]).Some? && StartsWith(readFile(argv[2]).value, ShebangLine))
              && (o.Written? <==> readFile(argv[2]).Some? && !StartsWith(readFile(argv[2]).value, ShebangLine))
    ensures o.Written? ==> o.path == argv[2] && readFile(argv[2]).Some?
                           && o.text == ShebangLine + "\n" + readFile(argv[2]).value
  {
    if |argv| <= 2 || argv[2] == "" then MissingFileName
    else
      var fileName := argv[2];
      match readFile(fileName)
      case None => ReadFailed
      case Some(data) =>
        match ShebangRewrite(data)
        case None => AlreadyHasShebang
        case Some(text) => Written(fileName, text)
  }

  /** Without a file name the script stops before reading: the outcome does not depend on the file system. */
  lemma MissingNameReadsNothing(argv: seq<string>, read1: string -> Option<string>, read2: string -> Option<string>)
    requires |argv| <= 2 || argv[2] == ""
    ensures UpdateScript(argv, read1) == UpdateScript(argv, read2) == MissingFileName
  {
  }
}
