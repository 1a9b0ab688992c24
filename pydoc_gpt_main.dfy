/**
 * `pydoc_gpt/main.py`: the earlier, Python-only version of the tool, with its
 * own source resolver, target resolver, argument check and token estimate.
 */
module PydocGptMain {
  import opened Wrappers
  import opened PyStr
  import opened PosixPath
  import opened ReSplit
  import opened Env
  import DocgptModel

  const DefaultTargetAppend: string := "pydoced.py"
  const MinSourceLength: int := 40
  const MaxPromptLengthThreshold: int := 1800
  const TokenEstimateCoeff: real := 1.27
  const MaxContextLength: int := 4097

  /** `estimate_num_tokens`: the piece count of `re.split(r"([\W_]+)", prompt)` times 1.27, truncated. */
  function EstimateNumTokens(prompt: string, isSep: char -> bool): (n: int)
    ensures n as real <= |Split(prompt, isSep)| as real * TokenEstimateCoeff < n as real + 1.0
  {
    (|Split(prompt, isSep)| as real * TokenEstimateCoeff).Floor
  }

  /** The test suite's example: seven pieces, estimated as int(7 * 1.27) = 8. */
  lemma EstimateExample(prompt: string, isSep: char -> bool)
    requires prompt == "this is/a+4" && PythonOnAscii(isSep)
    ensures EstimateNumTokens(prompt, isSep) == (7.0 * TokenEstimateCoeff).Floor == 8
  {
    SplitExample(prompt, isSep);
  }

  /** `validate_prompt_length`: refuse an estimate above the threshold. */
  function ValidatePromptLength(estimatedTokens: int): (ok: bool)
    ensures ok <==> estimatedTokens <= MaxPromptLengthThreshold
  {
    !(estimatedTokens > MaxPromptLengthThreshold)
  }

  /** A prompt that passes the gate leaves at least 2297 tokens for the completion. */
  lemma AcceptedPromptLeavesBudget(prompt: string, isSep: char -> bool)
    requires ValidatePromptLength(EstimateNumTokens(prompt, isSep))
    ensures 2297 <= MaxContextLength - EstimateNumTokens(prompt, isSep) <= 4096
  {
    var k := |Split(prompt, isSep)|;
    assert k as real * TokenEstimateCoeff >= k as real;
  }

  /**
   * What `get_source_code` returns. Only a source ending in `.py` is looked up;
   * any other source is treated as if none were given.
   */
  function ResolveSource(source: Option<string>, fs: FileSystem, stdin: Stdin): (r: Resolved)
    ensures r.fault.Some? ==> r.code == "" && r.path == ""
    ensures source.Some? && EndsWith(source.value, ".py") && source.value !in fs ==> r.fault == Some(NotFound)
    ensures source.Some? && EndsWith(source.value, ".py") && source.value in fs && fs[source.value].Dir? ==>
      r.fault == Some(DirectoryInput)
    ensures source.Some? && EndsWith(source.value, ".py") && source.value in fs && fs[source.value].File? ==>
      r == Resolved(Strip(fs[source.value].contents), source.value, None)
    ensures (source.None? || !EndsWith(source.value, ".py")) && !stdin.isTty ==>
      if |Concat(stdin.lines)| < MinSourceLength then r.fault == Some(TooSmall)
      else r == Resolved(Concat(stdin.lines), CurDir, None)
    ensures (source.None? || !EndsWith(source.value, ".py")) && stdin.isTty ==> r.fault == Some(NoSourceProvided)
  {
    if source.Some? && EndsWith(source.value, ".py") then
      if source.value !in fs then Resolved("", "", Some(NotFound))
      else if fs[source.value].Dir? then Resolved("", "", Some(DirectoryInput))
      else Resolved(Strip(fs[source.value].contents), source.value, None)
    else if !stdin.isTty then
      var text := Concat(stdin.lines);
      if |text| < MinSourceLength then Resolved("", "", Some(TooSmall))
      else Resolved(text, CurDir, None)
    else Resolved("", "", Some(NoSourceProvided))
  }

  /** `get_source_code`, reading piped input line by line. */
  method GetSourceCode(source: Option<string>, fs: FileSystem, stdin: Stdin) returns (r: Resolved)
    ensures r == ResolveSource(source, fs, stdin)
  {
    if source.Some? {
      if EndsWith(source.value, ".py") {
        if source.value !in fs {
          return Resolved("", "", Some(NotFound));
        }
        if fs[source.value].Dir? {
          return Resolved("", "", Some(DirectoryInput));
        }
        return Resolved(Strip(fs[source.value].contents), source.value, None);
      }
    }
    if !stdin.isTty {
      var sourceCode := "";
      var i := 0;
      while i < |stdin.lines|
        invariant 0 <= i <= |stdin.lines|
        invariant sourceCode == Concat(stdin.lines[..i])
      {
        ConcatSnoc(stdin.lines[..i], stdin.lines[i]);
        assert stdin.lines[..i + 1] == stdin.lines[..i] + [stdin.lines[i]];
        sourceCode := sourceCode + stdin.lines[i];
        i := i + 1;
      }
      assert stdin.lines[..i] == stdin.lines;
      if |sourceCode| < MinSourceLength {
        return Resolved("", "", Some(TooSmall));
      }
      return Resolved(sourceCode, CurDir, None);
    }
    return Resolved("", "", Some(NoSourceProvided));
  }

  /** A source that is not a `.py` path resolves exactly as no source at all. */
  lemma NonPySourceFallsThrough(source: string, fs: FileSystem, stdin: Stdin)
    requires !EndsWith(source, ".py")
    ensures ResolveSource(Some(source), fs, stdin) == ResolveSource(None, fs, stdin)
  {
  }

  /** `not target`: no target, or the empty string. */
  predicate NoTarget(target: Option<string>) {
    target.None? || target.value == ""
  }

  /** `get_target`: the result is always a `.py` path unless the source is overwritten. */
  function GetTarget(sourcePath: string, overwrite: bool, target: Option<string>): (r: string)
    ensures overwrite ==> r == sourcePath
    ensures !overwrite ==> EndsWith(r, ".py")
    ensures !overwrite && NoTarget(target) ==> r == SplitExt(sourcePath).0 + "_" + DefaultTargetAppend
    ensures !overwrite && !NoTarget(target) ==>
      r == if EndsWith(target.value, ".py") then target.value else target.value + ".py"
  {
    if overwrite then sourcePath
    else
      var targetPath := if NoTarget(target) then SplitExt(sourcePath).0 + "_" + DefaultTargetAppend else target.value;
      assert NoTarget(target) ==> targetPath[|targetPath| - 3..] == ".py";
      EndsWithConcat(targetPath, ".py");
      if !EndsWith(targetPath, ".py") then targetPath + ".py" else targetPath
  }

  /** The test suite's default target. */
  lemma DefaultTargetExample(sourcePath: string)
    requires sourcePath == "/path/to/sample.py"
    ensures GetTarget(sourcePath, false, None) == "/path/to/sample_pydoced.py"
  {
    SplitExtPySample(sourcePath);
    assert "/path/to/sample" + "_" + DefaultTargetAppend == "/path/to/sample_pydoced.py";
  }

  /** Passing a resolved target back in as the explicit target resolves to itself. */
  lemma GetTargetIdempotent(sourcePath: string, target: Option<string>)
    ensures GetTarget(sourcePath, false, Some(GetTarget(sourcePath, false, target))) == GetTarget(sourcePath, false, target)
  {
  }

  /** `validate_args`: overwrite needs a source, and some source or target is needed. */
  function ValidateArgs(source: Option<string>, target: Option<string>, overwrite: bool): (ok: bool)
    ensures !ok <==> (overwrite && source.None?) || (source.None? && target.None?)
  {
    if overwrite && source.None? then false
    else if source.None? && target.None? then false
    else true
  }

  /** The `__main__` block: `--source` is put in front of a first argument that is not a flag. */
  function CliArgs(argv: seq<string>): (args: Option<seq<string>>)
    ensures args.Some? <==> |argv| >= 2 && !StartsWith(argv[1], "--")
    ensures args.Some? ==> |args.value| == |argv| && args.value[0] == "--source" && args.value[1..] == argv[1..]
  {
    if |argv| >= 2 && !StartsWith(argv[1], "--") then Some(["--source"] + argv[1..]) else None
  }

  /** The checks of `main` that can stop it. */
  datatype Stage = MissingApiKey | InvalidArguments | NoSourceCode | PromptTooLong

  datatype Outcome =
    | Stopped(stage: Stage)
    | Exported(targetPath: string, text: string, maxTokens: int)

  /**
   * `main`: the argument check comes before the source is read, and the target
   * is resolved before the prompt is gated.
   */
  method Run(source: Option<string>, target: Option<string>, overwrite: bool, apiKey: string,
             fs: FileSystem, stdin: Stdin, isSep: char -> bool,
             getPrompt: string -> string, complete: (string, int) -> string)
    returns (o: Outcome)
    ensures apiKey == "" ==> o == Stopped(MissingApiKey)
    ensures apiKey != "" && !ValidateArgs(source, target, overwrite) ==> o == Stopped(InvalidArguments)
    ensures var src := ResolveSource(source, fs, stdin);
      apiKey != "" && ValidateArgs(source, target, overwrite) && src.code == "" ==> o == Stopped(NoSourceCode)
    ensures var src := ResolveSource(source, fs, stdin);
      var est := EstimateNumTokens(getPrompt(src.code), isSep);
      apiKey != "" && ValidateArgs(source, target, overwrite) && src.code != "" && !ValidatePromptLength(est) ==>
        o == Stopped(PromptTooLong)
    ensures var src := ResolveSource(source, fs, stdin);
      var prompt := getPrompt(src.code);
      var est := EstimateNumTokens(prompt, isSep);
      o.Exported? <==> apiKey != "" && ValidateArgs(source, target, overwrite) && src.code != "" && ValidatePromptLength(est)
    ensures var src := ResolveSource(source, fs, stdin);
      var prompt := getPrompt(src.code);
      var est := EstimateNumTokens(prompt, isSep);
      o.Exported? ==>
        && o.targetPath == GetTarget(src.path, overwrite, target)
        && o.maxTokens == MaxContextLength - est
        && o.text == DocgptModel.CleanupCompletion(complete(prompt, o.maxTokens))
    ensures o.Exported? ==> o.maxTokens >= 2297 && EndsWith(o.text, "\n")
  {
    if apiKey == "" {
      return Stopped(MissingApiKey);
    }
    if !ValidateArgs(source, target, overwrite) {
      return Stopped(InvalidArguments);
    }
    var src := GetSourceCode(source, fs, stdin);
    if src.code == "" {
      return Stopped(NoSourceCode);
    }
    var targetPath := GetTarget(src.path, overwrite, target);
    var prompt := getPrompt(src.code);
    var estimatedTokens := EstimateNumTokens(prompt, isSep);
    if !ValidatePromptLength(estimatedTokens) {
      return Stopped(PromptTooLong);
    }
    AcceptedPromptLeavesBudget(prompt, isSep);
    var maxTokens := MaxContextLength - estimatedTokens;
    var completedText := DocgptModel.CleanupCompletion(complete(prompt, maxTokens));
    assert completedText[|completedText| - 1..] == "\n";
    return Exported(targetPath, completedText, maxTokens);
  }

  /**
   * With `--overwrite`, a source that is not a `.py` path and piped input,
   * the target resolves to the current directory itself.
   */
  lemma NonPyOverwriteTargetsCurDir(source: string, fs: FileSystem, stdin: Stdin)
    requires !EndsWith(source, ".py") && !stdin.isTty && |Concat(stdin.lines)| >= MinSourceLength
    ensures ValidateArgs(Some(source), None, true)
    ensures GetTarget(ResolveSource(Some(source), fs, stdin).path, true, None) == CurDir
  {
  }
}
