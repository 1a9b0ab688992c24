/**
 * `docgpt/main.py`: where the source code comes from, where the documented
 * file goes, which argument combinations are accepted, how the command line
 * is rewritten, and the order in which `main` applies its checks.
 */
module DocgptMain {
  import opened Wrappers
  import opened PyStr
  import opened PosixPath
  import opened Env
  import opened DocgptModel

  const DefaultTargetAppend: string := "docgpt"
  const MinSourceLength: int := 40

  /**
   * What `get_source_code` returns. An explicit source is looked up in the file
   * system only; standard input is read only when no source is given and it is
   * not a terminal.
   */
  function ResolveSource(source: Option<string>, fs: FileSystem, stdin: Stdin): (r: Resolved)
    ensures r.fault.Some? ==> r.code == "" && r.path == ""
    ensures source.Some? && source.value !in fs ==> r.fault == Some(NotFound)
    ensures source.Some? && source.value in fs && fs[source.value].Dir? ==> r.fault == Some(DirectoryInput)
    ensures source.Some? && source.value in fs && fs[source.value].File? ==>
      r == Resolved(Strip(fs[source.value].contents), source.value, None)
    ensures source.None? && !stdin.isTty ==>
      if |Concat(stdin.lines)| < MinSourceLength then r.fault == Some(TooSmall)
      else r == Resolved(Concat(stdin.lines), CurDir, None)
    ensures source.None? && stdin.isTty ==> r.fault == Some(NoSourceProvided)
  {
    if source.Some? then
      if source.value !in fs then Resolved("", "", Some(NotFound))
      else if fs[source.value].Dir? then Resolved("", "", Some(DirectoryInput))
      else Resolved(Strip(fs[source.value].contents), source.value, None)
    else if !stdin.isTty then
      var text := Concat(stdin.lines);
      if |text| < MinSourceLength then Resolved("", "", Some(TooSmall))
      else Resolved(text, CurDir, None)
    else Resolved("", "", Some(NoSourceProvided))
  }

  /** `get_source_code`, reading piped input line by line. */
  method GetSourceCode(source: Option<string>, fs: FileSystem, stdin: Stdin) returns (r: Resolved)
    ensures r == ResolveSource(source, fs, stdin)
  {
    if source.Some? {
      if source.value !in fs {
        return Resolved("", "", Some(NotFound));
      }
      if fs[source.value].Dir? {
        return Resolved("", "", Some(DirectoryInput));
      }
      return Resolved(Strip(fs[source.value].contents), source.value, None);
    }
    if !stdin.isTty {
      var sourceCode := "";
      var i := 0;
      while i < |stdin.lines|
        invariant 0 <= i <= |stdin.lines|
        invariant sourceCode == Concat(stdin.lines[..i])
      {
        ConcatSnoc(stdin.lines[..i], stdin.lines[i]);
        assert stdin.lines[..i + 1] == stdin.lines[..i] + [stdin.lines[i]];
        sourceCode := sourceCode + stdin.lines[i];
        i := i + 1;
      }
      assert stdin.lines[..i] == stdin.lines;
      if |sourceCode| < MinSourceLength {
        return Resolved("", "", Some(TooSmall));
      }
      return Resolved(sourceCode, CurDir, None);
    }
    return Resolved("", "", Some(NoSourceProvided));
  }

  /** An explicit source never consults standard input. */
  lemma ExplicitSourceIgnoresStdin(source: string, fs: FileSystem, a: Stdin, b: Stdin)
    ensures ResolveSource(Some(source), fs, a) == ResolveSource(Some(source), fs, b)
  {
  }

  /** Text taken from a file has no whitespace at either end. */
  lemma FileSourceIsStripped(source: string, fs: FileSystem, stdin: Stdin)
    requires source in fs && fs[source].File?
    ensures NoEdgeSpace(ResolveSource(Some(source), fs, stdin).code)
  {
  }

  /** Resolution succeeds with text exactly when `main` would go on. */
  lemma PipedSuccessIsLongEnough(fs: FileSystem, stdin: Stdin)
    requires ResolveSource(None, fs, stdin).fault.None?
    ensures !stdin.isTty
    ensures |ResolveSource(None, fs, stdin).code| >= MinSourceLength
    ensures ResolveSource(None, fs, stdin).path == CurDir
  {
  }

  /**
   * The piped branch as written: `fileinput.input()` takes its file names from
   * `sys.argv[1:]`, which `cli` leaves untouched, so `cat f | docgpt --target
   * out.py` opens a file named `--target` and raises.
   */
  lemma PipedTargetRunRaises(args: seq<string>, fs: FileSystem, stdin: Stdin)
    requires args == ["--target", "out.py"] && "--target" !in fs
    ensures FileInput(args, fs, stdin) == None
  {
    assert Unreadable(args[0], fs);
  }

  /**
   * The one piped run that does read standard input as written, with no
   * process arguments, has neither source nor target and fails `validate_args`.
   */
  lemma PipedRunWithoutArgumentsRefused(fs: FileSystem, stdin: Stdin)
    ensures FileInput([], fs, stdin) == Some(Concat(stdin.lines))
    ensures !ValidateArgs(None, None, false)
  {
  }

  /**
   * The piped branch as intended, which `ResolveSource` models: piped text of
   * at least 40 characters with a non-empty target passes the source check and
   * the argument check, and is written to the target as given.
   */
  lemma PipedTargetRunAccepted(fs: FileSystem, stdin: Stdin, t: string)
    requires !stdin.isTty && |Concat(stdin.lines)| >= MinSourceLength && t != ""
    ensures ResolveSource(None, fs, stdin) == Resolved(Concat(stdin.lines), CurDir, None)
    ensures ValidateArgs(None, Some(t), false)
    ensures GetTarget(CurDir, false, Some(t)) == t
  {
    SplitExtLeadingDot(CurDir);
    NoExtensionKeepsTarget(CurDir, t);
  }

  /** `not target`: no target, or the empty string. */
  predicate NoTarget(target: Option<string>) {
    target.None? || target.value == ""
  }

  /** `get_target`. */
  function GetTarget(sourcePath: string, overwrite: bool, target: Option<string>): (r: string)
    ensures overwrite ==> r == sourcePath
    ensures !overwrite ==> EndsWith(r, SplitExt(sourcePath).1)
    ensures !overwrite && NoTarget(target) ==>
      r == SplitExt(sourcePath).0 + "_" + DefaultTargetAppend + SplitExt(sourcePath).1
    ensures !overwrite && !NoTarget(target) ==>
      r == if EndsWith(target.value, SplitExt(sourcePath).1) then target.value
           else target.value + SplitExt(sourcePath).1
  {
    if overwrite then sourcePath
    else
      var (sourcePathWoExt, ext) := SplitExt(sourcePath);
      var targetPath := if NoTarget(target) then sourcePathWoExt + "_" + DefaultTargetAppend + ext else target.value;
      EndsWithConcat(sourcePathWoExt + "_" + DefaultTargetAppend, ext);
      EndsWithConcat(targetPath, ext);
      if !EndsWith(targetPath, ext) then targetPath + ext else targetPath
  }

  /** The extension is appended, never substituted: the target's own extension, such as `.py` in `new_target.py`, is kept. */
  lemma TargetKeepsExplicitPrefix(sourcePath: string, t: string)
    requires t != ""
    ensures StartsWith(GetTarget(sourcePath, false, Some(t)), t)
  {
    var r := GetTarget(sourcePath, false, Some(t));
    assert r[..|t|] == t;
  }

  /** A source without an extension (such as "." for piped input) leaves an explicit target as given. */
  lemma NoExtensionKeepsTarget(sourcePath: string, t: string)
    requires SplitExt(sourcePath).1 == [] && t != ""
    ensures GetTarget(sourcePath, false, Some(t)) == t
  {
  }

  /** Passing a resolved target back in as the explicit target resolves to itself. */
  lemma GetTargetIdempotent(sourcePath: string, target: Option<string>)
    ensures GetTarget(sourcePath, false, Some(GetTarget(sourcePath, false, target))) == GetTarget(sourcePath, false, target)
  {
  }

  /** The default target of the test suite's example. */
  lemma DefaultTargetExample(sourcePath: string)
    requires sourcePath == "/path/to/sample.py"
    ensures GetTarget(sourcePath, false, None) == "/path/to/sample_docgpt.py"
  {
    SplitExtPySample(sourcePath);
    assert "/path/to/sample" + "_" + DefaultTargetAppend + ".py" == "/path/to/sample_docgpt.py";
  }

  /** An explicit target without the source's extension gets it appended. */
  lemma ExplicitTargetExample(sourcePath: string, t: string)
    requires sourcePath == "/path/to/sample.cpp" && t == "new_target"
    ensures GetTarget(sourcePath, false, Some(t)) == "new_target.cpp"
  {
    SplitExtCppSample(sourcePath);
    assert t[6..] != ".cpp";
  }

  /** The extension is appended even over one of the target's own. */
  lemma ExplicitTargetCompoundExample(sourcePath: string, t: string)
    requires sourcePath == "/path/to/sample.cpp" && t == "new_target.py"
    ensures GetTarget(sourcePath, false, Some(t)) == "new_target.py.cpp"
  {
    SplitExtCppSample(sourcePath);
    assert t[9..] != ".cpp";
  }

  /** `validate_args`. */
  function ValidateArgs(source: Option<string>, target: Option<string>, overwrite: bool): (ok: bool)
    ensures !ok <==> (overwrite && source.None?) || (overwrite && target.Some?) || (source.None? && target.None?)
  {
    if overwrite && source.None? then false
    else if overwrite && target.Some? then false
    else if source.None? && target.None? then false
    else true
  }

  /** The flag at `i` would swallow no value: it is last, or another flag follows it. */
  predicate LacksValue(args: seq<string>, i: nat)
    requires i < |args|
  {
    i == |args| - 1 || StartsWith(args[i + 1], "--")
  }

  /**
   * `sys.argv[1:]`, with `--source` put in front of a first argument that is
   * not a flag: the process arguments survive in order at the end.
   */
  function WithSourceFlag(argv: seq<string>): (base: seq<string>)
    requires |argv| >= 2
    ensures |base| > 0 && StartsWith(base[0], "--")
    ensures |argv| - 1 <= |base| <= |argv|
    ensures base[|base| - (|argv| - 1)..] == argv[1..]
    ensures |base| == |argv| <==> !StartsWith(argv[1], "--")
    ensures |base| == |argv| ==> base[0] == "--source"
  {
    if StartsWith(argv[1], "--") then argv[1..] else ["--source"] + argv[1..]
  }

  /**
   * Give a value-less first `--overwrite` the value `true`: exactly one
   * element, `true`, is inserted right after it, and nothing else changes.
   */
  function WithOverwriteValue(base: seq<string>): (r: seq<string>)
    ensures "--overwrite" in base ==> "--overwrite" in r && FirstIndex(r, "--overwrite") == FirstIndex(base, "--overwrite")
    ensures "--overwrite" in base && LacksValue(base, FirstIndex(base, "--overwrite")) ==>
      var i := FirstIndex(base, "--overwrite");
      |r| == |base| + 1 && r[i + 1] == "true" && r[..i + 1] + r[i + 2..] == base
    ensures !("--overwrite" in base && LacksValue(base, FirstIndex(base, "--overwrite"))) ==> r == base
  {
    if "--overwrite" in base && LacksValue(base, FirstIndex(base, "--overwrite"))
    then
      var i := FirstIndex(base, "--overwrite");
      var r := InsertAt(base, i + 1, "true");
      InsertTrueGivesValue(base, r);
      InsertAtRemoved(base, i + 1, "true");
      r
    else base
  }

  /** `true` is a value, not a flag. */
  lemma TrueIsNotFlag()
    ensures !StartsWith("true", "--")
  {
    assert "true"[..2][0] == 't';
  }

  /** Inserting `true` after the first `--overwrite` gives it a value, and moves nothing before it. */
  lemma InsertTrueGivesValue(base: seq<string>, r: seq<string>)
    requires "--overwrite" in base
    requires r == InsertAt(base, FirstIndex(base, "--overwrite") + 1, "true")
    ensures "--overwrite" in r && FirstIndex(r, "--overwrite") == FirstIndex(base, "--overwrite")
    ensures var i := FirstIndex(r, "--overwrite"); i + 1 < |r| && !StartsWith(r[i + 1], "--")
  {
    var i := FirstIndex(base, "--overwrite");
    FirstIndexIs(r, "--overwrite", i);
    TrueIsNotFlag();
  }

  /** After the rewrite, the first `--overwrite` is followed by a value. */
  lemma RewrittenOverwriteHasValue(base: seq<string>)
    requires "--overwrite" in base
    ensures var r := WithOverwriteValue(base);
      var i := FirstIndex(r, "--overwrite");
      i + 1 < |r| && !StartsWith(r[i + 1], "--")
  {
    if LacksValue(base, FirstIndex(base, "--overwrite")) {
      InsertTrueGivesValue(base, WithOverwriteValue(base));
    }
  }

  /** A first `--overwrite` that already has a value is left alone, and so is everything else. */
  lemma OverwriteWithValueUnchanged(base: seq<string>)
    requires "--overwrite" in base ==> !LacksValue(base, FirstIndex(base, "--overwrite"))
    ensures WithOverwriteValue(base) == base
  {
  }

  /**
   * The argument list `cli` hands to the parser, or `None` when there are
   * fewer than two process arguments and the parser reads them unchanged.
   */
  method Cli(argv: seq<string>) returns (args: Option<seq<string>>)
    ensures args.Some? <==> |argv| >= 2
    ensures args.Some? ==> args.value == WithOverwriteValue(WithSourceFlag(argv))
    ensures args.Some? ==> |argv| - 1 <= |args.value| <= |argv| + 1
    ensures args.Some? ==> |args.value| > 0 && StartsWith(args.value[0], "--")
    ensures args.Some? && "--overwrite" in args.value ==>
      var i := FirstIndex(args.value, "--overwrite");
      i + 1 < |args.value| && !StartsWith(args.value[i + 1], "--")
  {
    if |argv| < 2 {
      return None;
    }
    var newArgv := argv[1..];
    if !StartsWith(argv[1], "--") {
      newArgv := ["--source"] + argv[1..];
    }
    ghost var base := newArgv;
    if "--overwrite" in newArgv {
      var overwriteI := FirstIndex(newArgv, "--overwrite");
      if overwriteI == |newArgv| - 1 || StartsWith(newArgv[overwriteI + 1], "--") {
        newArgv := InsertAt(newArgv, overwriteI + 1, "true");
      }
      RewrittenOverwriteHasValue(base);
    }
    return Some(newArgv);
  }

  /** The checks of `main` that can stop it, in the order it makes them. */
  datatype Stage = MissingApiKey | NoSourceCode | PromptTooLong | InvalidArguments

  /** How a run of `main` ends: exit status 1 at some check, or the documented text written to a path. */
  datatype Outcome =
    | Stopped(stage: Stage)
    | Exported(targetPath: string, text: string, maxTokens: int)

  function ExitCode(o: Outcome): (code: int)
    ensures code == 0 <==> o.Exported?
    ensures code == 0 || code == 1
  {
    if o.Exported? then 0 else 1
  }

  /**
   * `main`. `apiKey` is what the key lookup returned, `getPrompt` the prompt
   * template, `isSep` the separator class of `\W_`, `complete` the completion
   * service called with the prompt and `max_tokens`.
   */
  method Run(source: Option<string>, target: Option<string>, overwrite: bool, apiKey: string,
             fs: FileSystem, stdin: Stdin, isSep: char -> bool,
             getPrompt: string -> string, complete: (string, int) -> string)
    returns (o: Outcome)
    ensures apiKey == "" ==> o == Stopped(MissingApiKey)
    ensures var src := ResolveSource(source, fs, stdin);
      apiKey != "" && src.code == "" ==> o == Stopped(NoSourceCode)
    ensures var src := ResolveSource(source, fs, stdin);
      var est := EstimateNumTokens(getPrompt(src.code), isSep);
      apiKey != "" && src.code != "" && !ValidatePromptLength(est) ==> o == Stopped(PromptTooLong)
    ensures var src := ResolveSource(source, fs, stdin);
      var est := EstimateNumTokens(getPrompt(src.code), isSep);
      apiKey != "" && src.code != "" && ValidatePromptLength(est) && !ValidateArgs(source, target, overwrite) ==>
        o == Stopped(InvalidArguments)
    ensures var src := ResolveSource(source, fs, stdin);
      var prompt := getPrompt(src.code);
      var est := EstimateNumTokens(prompt, isSep);
      o.Exported? <==> apiKey != "" && src.code != "" && ValidatePromptLength(est) && ValidateArgs(source, target, overwrite)
    ensures var src := ResolveSource(source, fs, stdin);
      var prompt := getPrompt(src.code);
      var est := EstimateNumTokens(prompt, isSep);
      o.Exported? ==>
        && o.targetPath == GetTarget(src.path, overwrite, target)
        && o.maxTokens == MaxContextLength - est
        && o.text == CleanupCompletion(complete(prompt, o.maxTokens))
    ensures o.Exported? ==> o.maxTokens >= 2297 && EndsWith(o.text, "\n")
  {
    if apiKey == "" {
      return Stopped(MissingApiKey);
    }
    var src := GetSourceCode(source, fs, stdin);
    if src.code == "" {
      return Stopped(NoSourceCode);
    }
    var prompt := getPrompt(src.code);
    var estimatedTokens := EstimateNumTokens(prompt, isSep);
    if !ValidatePromptLength(estimatedTokens) {
      return Stopped(PromptTooLong);
    }
    if !ValidateArgs(source, target, overwrite) {
      return Stopped(InvalidArguments);
    }
    var targetPath := GetTarget(src.path, overwrite, target);
    AcceptedPromptLeavesBudget(prompt, isSep);
    var maxTokens := MaxContextLength - estimatedTokens;
    var completedText := CleanupCompletion(complete(prompt, maxTokens));
    assert completedText[|completedText| - 1..] == "\n";
    return Exported(targetPath, completedText, maxTokens);
  }

  /** A file that strips to nothing is found, yet `main` stops as if there were no source. */
  lemma BlankFileStopsMain(source: string, fs: FileSystem, stdin: Stdin)
    requires source in fs && fs[source].File? && AllSpace(fs[source].contents)
    ensures ResolveSource(Some(source), fs, stdin).fault.None?
    ensures ResolveSource(Some(source), fs, stdin).code == ""
  {
    StripEmptyIffAllSpace(fs[source].contents);
  }
}
