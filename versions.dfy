/** How the current `docgpt` package differs from the earlier `pydoc_gpt` script. */
module Versions {
  import opened Wrappers
  import opened PyStr
  import opened PosixPath
  import opened ReSplit
  import opened Env
  import DocgptMain
  import DocgptModel
  import PydocGptMain

  /**
   * The current argument check accepts a subset of what the earlier one
   * accepted; the only combination it newly rejects is overwrite with a target.
   */
  lemma ValidateArgsNarrowed(source: Option<string>, target: Option<string>, overwrite: bool)
    ensures DocgptMain.ValidateArgs(source, target, overwrite) ==> PydocGptMain.ValidateArgs(source, target, overwrite)
    ensures PydocGptMain.ValidateArgs(source, target, overwrite) && !DocgptMain.ValidateArgs(source, target, overwrite)
      <==> overwrite && source.Some? && target.Some?
  {
  }

  /** The current coefficient is the larger, so it never estimates fewer tokens. */
  lemma EstimateGrew(prompt: string, isSep: char -> bool)
    ensures PydocGptMain.EstimateNumTokens(prompt, isSep) <= DocgptModel.EstimateNumTokens(prompt, isSep)
  {
    var k := |Split(prompt, isSep)| as real;
    assert k * PydocGptMain.TokenEstimateCoeff <= k * DocgptModel.TokenEstimateCoeff;
  }

  /** For a `.py` source both versions read the same file, with the same result. */
  lemma SameResolutionForPySources(source: string, fs: FileSystem, stdin: Stdin)
    requires EndsWith(source, ".py")
    ensures DocgptMain.ResolveSource(Some(source), fs, stdin) == PydocGptMain.ResolveSource(Some(source), fs, stdin)
  {
  }

  /** Both versions agree when no source is given. */
  lemma SameResolutionWithoutSource(fs: FileSystem, stdin: Stdin)
    ensures DocgptMain.ResolveSource(None, fs, stdin) == PydocGptMain.ResolveSource(None, fs, stdin)
  {
  }

  /** For a `.py` source, an explicit target resolves identically in both versions. */
  lemma SameExplicitTargetForPySources(sourcePath: string, t: string)
    requires SplitExt(sourcePath).1 == ".py" && t != ""
    ensures DocgptMain.GetTarget(sourcePath, false, Some(t)) == PydocGptMain.GetTarget(sourcePath, false, Some(t))
  {
  }

  /** The default targets differ only in the tag between the stem and the extension. */
  lemma DefaultTargetsDifferInTag(sourcePath: string)
    requires SplitExt(sourcePath).1 == ".py"
    ensures DocgptMain.GetTarget(sourcePath, false, None) == SplitExt(sourcePath).0 + "_docgpt.py"
    ensures PydocGptMain.GetTarget(sourcePath, false, None) == SplitExt(sourcePath).0 + "_pydoced.py"
  {
  }
}
