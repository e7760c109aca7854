/**
 * `runCLI`: the argument list is copied, `--help` is appended to the copy
 * when no known option is present, and the parsed options decide which of
 * the three actions run, in a fixed order. The option parser is a parameter.
 */
module Core {
  import opened Wrappers
  import opened Helper

  /** The options the parser reports; an absent option is `false` or `""`. */
  datatype CommandOptions = CommandOptions(install: bool, path: string, folder: string)

  /** The parser either ends the process itself (help, version, a usage error) or returns the options. */
  datatype CommanderResult = Exited | Options(opts: CommandOptions)

  datatype Action = InstallPackage | UpdateFile(file: string) | UpdateFolder(folder: string)

  const PathFlags: seq<string> := ["--path", "-P"]
  const FolderFlags: seq<string> := ["--folder", "-F"]

  /** None of `--install`, `-I`, `--path`, `-P`, `--folder`, `-F` occurs in `argv`. */
  predicate NoKnownOption(argv: seq<string>) {
    "--install" !in argv && "-I" !in argv && "--path" !in argv && "-P" !in argv
    && "--folder" !in argv && "-F" !in argv
  }

  /** The working copy of the arguments. */
  function WithHelp(argv: seq<string>): seq<string>
  {
    if NoKnownOption(argv) then argv + ["--help"] else argv
  }

  /** The option's own value when set, the looked-up value otherwise. */
  function Chosen(option: string, lookedUp: string): string
  {
    if option != "" then option else lookedUp
  }

  /** The actions `runCLI` performs, given the working copy and the parsed options. */
  function CliActions(argvCopy: seq<string>, opts: CommandOptions): seq<Action>
  {
    var file := Chosen(opts.path, MatchValue(Some(argvCopy), PathFlags));
    var folder := Chosen(opts.folder, MatchValue(Some(argvCopy), FolderFlags));
    (if opts.install then [InstallPackage] else [])
    + (if file != "" then [UpdateFile(file)] else [])
    + (if folder != "" then [UpdateFolder(folder)] else [])
  }

  /** `runCLI`: returns the working copy of the arguments and the actions it runs. */
  method RunCLI(processArgv: seq<string>, parseOptions: seq<string> -> CommanderResult)
    returns (argvCopy: seq<string>, actions: seq<Action>)
    ensures argvCopy == WithHelp(processArgv)
    ensures parseOptions(argvCopy).Exited? ==> actions == []
    ensures parseOptions(argvCopy).Options? ==> actions == CliActions(argvCopy, parseOptions(argvCopy).opts)
  {
    argvCopy := processArgv;
    if NoKnownOption(argvCopy) {
      argvCopy := argvCopy + ["--help"];
    }
    var filePath := FindMatch(Some(argvCopy), PathFlags);
    var folderPath := FindMatch(Some(argvCopy), FolderFlags);
    var parsed := parseOptions(argvCopy);
    if parsed.Exited? {
      return argvCopy, [];
    }
    var options := parsed.opts;
    actions := if options.install then [InstallPackage] else [];
    var file := if options.path != "" then options.path else filePath;
    actions := actions + (if file != "" then [UpdateFile(file)] else []);
    var folder := if options.folder != "" then options.folder else folderPath;
    actions := actions + (if folder != "" then [UpdateFolder(folder)] else []);
    CliActionsParts(argvCopy, options, file, folder);
  }

  lemma CliActionsParts(argvCopy: seq<string>, opts: CommandOptions, file: string, folder: string)
    requires file == Chosen(opts.path, MatchValue(Some(argvCopy), PathFlags))
    requires folder == Chosen(opts.folder, MatchValue(Some(argvCopy), FolderFlags))
    ensures CliActions(argvCopy, opts)
            == (if opts.install then [InstallPackage] else [])
               + (if file != "" then [UpdateFile(file)] else [])
               + (if folder != "" then [UpdateFolder(folder)] else [])
  {
  }

  /** The caller's list is a prefix of the copy, which has at most one more entry: `--help`, exactly when no option is known. */
  lemma WithHelpShape(argv: seq<string>)
    ensures WithHelp(argv)[..|argv|] == argv
    ensures |WithHelp(argv)| == |argv| + 1 <==> NoKnownOption(argv)
    ensures |WithHelp(argv)| == |argv| + 1 ==> WithHelp(argv)[|argv|] == "--help"
    ensures !NoKnownOption(argv) ==> WithHelp(argv) == argv
  {
  }

  /** With `--help` appended, neither lookup finds anything: only the parsed options can name a file or folder. */
  lemma HelpLookupsEmpty(argv: seq<string>)
    requires NoKnownOption(argv)
    ensures MatchValue(Some(WithHelp(argv)), PathFlags) == ""
    ensures MatchValue(Some(WithHelp(argv)), FolderFlags) == ""
  {
    var copy := WithHelp(argv);
    forall i | 0 <= i < |copy|
      ensures !IsFlag(copy[i], PathFlags) && !IsFlag(copy[i], FolderFlags)
    {
      if i < |argv| {
        assert copy[i] == argv[i];
      }
    }
    FindMatchNoFlag(copy, PathFlags);
    FindMatchNoFlag(copy, FolderFlags);
  }

  /** Position of an action kind in the fixed order install, file, folder. */
  function Rank(a: Action): nat
  {
    match a
    case InstallPackage => 0
    case UpdateFile(_) => 1
    case UpdateFolder(_) => 2
  }

  /**
   * The actions run in the order install, file, folder, each at most once;
   * a file or folder action always has a non-empty argument, and each one
   * happens exactly when its option or its lookup is non-empty.
   */
  lemma CliActionsOrder(argvCopy: seq<string>, opts: CommandOptions)
    ensures var acts := CliActions(argvCopy, opts);
            forall i, j :: 0 <= i < j < |acts| ==> Rank(acts[i]) < Rank(acts[j])
    ensures var acts := CliActions(argvCopy, opts);
            forall i :: 0 <= i < |acts| ==> match acts[i]
              case InstallPackage => opts.install
              case UpdateFile(f) => f != "" && f == Chosen(opts.path, MatchValue(Some(argvCopy), PathFlags))
              case UpdateFolder(f) => f != "" && f == Chosen(opts.folder, MatchValue(Some(argvCopy), FolderFlags))
    ensures var acts := CliActions(argvCopy, opts);
            (exists i :: 0 <= i < |acts| && acts[i].UpdateFile?)
              <==> (opts.path != "" || MatchValue(Some(argvCopy), PathFlags) != "")
  {
    var file := Chosen(opts.path, MatchValue(Some(argvCopy), PathFlags));
    var folder := Chosen(opts.folder, MatchValue(Some(argvCopy), FolderFlags));
    ActionsInOrder(opts.install, file, folder);
  }

  lemma ActionsInOrder(install: bool, file: string, folder: string)
    ensures var acts := (if install then [InstallPackage] else [])
              + (if file != "" then [UpdateFile(file)] else [])
              + (if folder != "" then [UpdateFolder(folder)] else []);
            (forall i, j :: 0 <= i < j < |acts| ==> Rank(acts[i]) < Rank(acts[j]))
            && (forall i :: 0 <= i < |acts| ==> match acts[i]
                 case InstallPackage => install
                 case UpdateFile(f) => f != "" && f == file
                 case UpdateFolder(f) => f != "" && f == folder)
            && ((exists i :: 0 <= i < |acts| && acts[i].UpdateFile?) <==> file != "")
  {
    var acts := (if install then [InstallPackage] else [])
      + (if file != "" then [UpdateFile(file)] else [])
      + (if folder != "" then [UpdateFolder(folder)] else []);
    if file != "" {
      var k := if install then 1 else 0;
      assert acts[k].UpdateFile?;
    }
  }
}
