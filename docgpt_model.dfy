/**
 * `docgpt/model.py`: the token estimate that gates a prompt, and the
 * clean-up of the model's completion.
 */
module DocgptModel {
  import opened PyStr
  import opened ReSplit

  const MaxPromptLengthThreshold: int := 1800
  const TokenEstimateCoeff: real := 1.28
  const MaxContextLength: int := 4097

  /**
   * `estimate_num_tokens`: the number of pieces `re.split(r"([\W_]+)", prompt)`
   * returns, times the coefficient, truncated. Python's `int()` truncates
   * toward zero, which is the floor for this non-negative product.
   */
  function EstimateNumTokens(prompt: string, isSep: char -> bool): (n: int)
    ensures n as real <= |Split(prompt, isSep)| as real * TokenEstimateCoeff < n as real + 1.0
  {
    (|Split(prompt, isSep)| as real * TokenEstimateCoeff).Floor
  }

  /** The estimate depends on the prompt only through its number of separator runs. */
  lemma EstimateFromRuns(prompt: string, isSep: char -> bool)
    ensures EstimateNumTokens(prompt, isSep) == ((2 * Runs(prompt, isSep) + 1) as real * TokenEstimateCoeff).Floor
  {
    SplitCount(prompt, isSep);
  }

  /** Since the coefficient exceeds 1, the estimate is at least the piece count, so at least 1. */
  lemma EstimateAtLeastPieces(prompt: string, isSep: char -> bool)
    ensures EstimateNumTokens(prompt, isSep) >= |Split(prompt, isSep)| >= 1
  {
    var k := |Split(prompt, isSep)|;
    assert k as real * TokenEstimateCoeff >= k as real;
  }

  /** More separator runs never lower the estimate. */
  lemma EstimateMonotone(a: string, b: string, isSep: char -> bool)
    requires Runs(a, isSep) <= Runs(b, isSep)
    ensures EstimateNumTokens(a, isSep) <= EstimateNumTokens(b, isSep)
  {
    SplitCount(a, isSep);
    SplitCount(b, isSep);
    var ka := |Split(a, isSep)| as real;
    var kb := |Split(b, isSep)| as real;
    assert ka * TokenEstimateCoeff <= kb * TokenEstimateCoeff;
  }

  /** The test suite's example: seven pieces, estimated as int(7 * 1.28) = 8. */
  lemma EstimateExample(prompt: string, isSep: char -> bool)
    requires prompt == "this is/a+4" && PythonOnAscii(isSep)
    ensures |Split(prompt, isSep)| == 7
    ensures EstimateNumTokens(prompt, isSep) == (7.0 * TokenEstimateCoeff).Floor == 8
  {
    SplitExample(prompt, isSep);
  }

  /** `validate_prompt_length`: refuse an estimate above the threshold. */
  function ValidatePromptLength(estimatedTokens: int): (ok: bool)
    ensures ok <==> estimatedTokens <= MaxPromptLengthThreshold
  {
    !(estimatedTokens > MaxPromptLengthThreshold)
  }

  /**
   * A prompt that passes the gate leaves `max_tokens = 4097 - estimate` for the
   * completion, between 2297 and 4096.
   */
  lemma AcceptedPromptLeavesBudget(prompt: string, isSep: char -> bool)
    requires ValidatePromptLength(EstimateNumTokens(prompt, isSep))
    ensures 2297 <= MaxContextLength - EstimateNumTokens(prompt, isSep) <= 4096
  {
    EstimateAtLeastPieces(prompt, isSep);
  }

  /** The last step of `invoke`: `text.strip()` followed by one newline. */
  function CleanupCompletion(text: string): (r: string)
    ensures |r| >= 1 && r[|r| - 1] == '\n'
    ensures r[..|r| - 1] == Strip(text)
    ensures |r| >= 2 ==> !IsSpace(r[0]) && !IsSpace(r[|r| - 2])
  {
    var r := Strip(text) + "\n";
    assert r[..|r| - 1] == Strip(text);
    r
  }

  /** Cleaning an already cleaned completion changes nothing. */
  lemma CleanupIdempotent(text: string)
    ensures CleanupCompletion(CleanupCompletion(text)) == CleanupCompletion(text)
  {
    StripStrippedThenSpace(Strip(text), "\n");
  }
}
