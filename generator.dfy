/** The pure post-processing of generator/generator.go: the choice of model name and
    the cleaning of the completion the language model returns. The model call itself
    is not modelled; its completion is an input. */
module Generator {
  import opened GoStrings

  /** The Markdown code fence. */
  const Fence := "```"

  /** The model asked for: "llama2" when none is named. */
  function ModelName(model: string): (r: string)
    ensures r != ""
    ensures model != "" ==> r == model
    ensures model == "" ==> r == "llama2"
  {
    if model == "" then "llama2" else model
  }

  /** What Generate returns for `completion`: the prompt removed wherever it is echoed,
      then, when a fence is present, the second fence-separated piece. */
  function PostProcess(completion: string, prompt: string): (r: string)
    ensures |r| <= |completion|
  {
    var cleaned := RemoveAll(completion, prompt);
    if Contains(cleaned, Fence) then
      var split := Split(cleaned, Fence);
      if |split| > 1 then
        assert |split[1]| <= |cleaned| by { SplitPieceShorter(cleaned, Fence, 1); }
        split[1]
      else cleaned
    else cleaned
  }

  /** No piece of a split is longer than the string split. */
  lemma {:induction false} SplitPieceShorter(s: string, sep: string, k: nat)
    requires sep != "" && k < |Split(s, sep)|
    ensures |Split(s, sep)[k]| <= |s|
    decreases |s|
  {
    var i := Index(s, sep);
    if i != -1 && k > 0 {
      SplitPieceShorter(s[i + |sep|..], sep, k - 1);
    }
  }

  /** Inside the fence branch the check for a second piece always succeeds, so the
      final `return completion` is reached only when there is no fence. */
  lemma FenceGuardHolds(completion: string, prompt: string)
    requires Contains(RemoveAll(completion, prompt), Fence)
    ensures |Split(RemoveAll(completion, prompt), Fence)| > 1
  {
    SplitCount(RemoveAll(completion, prompt), Fence);
  }

  /** The result never contains a fence. */
  lemma PostProcessFenceFree(completion: string, prompt: string)
    ensures !Contains(PostProcess(completion, prompt), Fence)
  {
    var cleaned := RemoveAll(completion, prompt);
    if Contains(cleaned, Fence) {
      SplitCount(cleaned, Fence);
      SplitPiecesFree(cleaned, Fence, 1);
    }
  }

  /** With no fence in the cleaned completion, that cleaned text is the result. */
  lemma PostProcessUnfenced(completion: string, prompt: string)
    requires !Contains(RemoveAll(completion, prompt), Fence)
    ensures PostProcess(completion, prompt) == RemoveAll(completion, prompt)
  {
  }

  /** With a fence, the result is what follows the first fence, up to the second fence
      when there is one. */
  lemma PostProcessFenced(completion: string, prompt: string)
    requires Contains(RemoveAll(completion, prompt), Fence)
    ensures var cleaned := RemoveAll(completion, prompt);
      var rest := cleaned[Index(cleaned, Fence) + |Fence|..];
      var j := Index(rest, Fence);
      PostProcess(completion, prompt) == (if j == -1 then rest else rest[..j])
  {
    var cleaned := RemoveAll(completion, prompt);
    var i := Index(cleaned, Fence);
    var rest := cleaned[i + |Fence|..];
    assert Split(cleaned, Fence) == [cleaned[..i]] + Split(rest, Fence);
    if Index(rest, Fence) != -1 {
      var j := Index(rest, Fence);
      assert Split(rest, Fence) == [rest[..j]] + Split(rest[j + |Fence|..], Fence);
    }
  }

  /** A completion that does not echo the prompt goes to the fence handling unchanged. */
  lemma PostProcessWithoutEcho(completion: string, prompt: string)
    requires !Contains(completion, prompt)
    ensures PostProcess(completion, prompt) == PostProcess(completion, "")
  {
    RemoveAllUnchanged(completion, prompt);
    RemoveAllUnchanged(completion, "");
  }

  /** A completion that echoes a non-empty prompt loses at least those characters
      before fence handling. */
  lemma PostProcessRemovesEcho(completion: string, prompt: string)
    requires prompt != "" && Contains(completion, prompt)
    ensures |RemoveAll(completion, prompt)| < |completion|
    ensures !Contains(RemoveAll(completion, prompt), Fence) ==>
      |PostProcess(completion, prompt)| < |completion|
  {
    RemoveAllShrinks(completion, prompt);
  }
}
