/**
 The LLM stub sidecar: `POST /v1/llm/generate` answers a `(mode, text)` request
 from fixed templates, standing in for a real language model. Mode `polish`
 prefixes a marker, mode `action` wraps the text in a background/TODO note,
 and every other mode echoes the text.
 */
module LlmStub {
  import opened Common

  /** The marker put in front of the text in mode `polish` ("(polished)"). */
  const PolishPrefix: string := "（润色）"
  /** The template around the text in mode `action`: "Background:\n- " … "\n\nTODO:\n- (to be filled)\n". */
  const ActionPrefix: string := "背景：\n- "
  const ActionSuffix: string := "\n\nTODO：\n- （待补）\n"

  /**
   The handler of `POST /v1/llm/generate`. Modes are compared by exact string
   equality; there is no error path, so every request gets exactly one output.
   */
  function Generate(mode: string, text: string): (output: string)
    ensures mode == "polish" ==> output == PolishPrefix + text
    ensures mode == "action" ==> output == ActionPrefix + text + ActionSuffix
    ensures mode != "polish" && mode != "action" ==> output == text
  {
    if mode == "polish" then PolishPrefix + text
    else if mode == "action" then ActionPrefix + text + ActionSuffix
    else text
  }

  /**
   Reads the request text back out of an output for the given mode: the
   inverse of `Generate`, `None` when the output does not have the template's
   shape.
   */
  function RecoverText(mode: string, output: string): (text: Option<string>)
    ensures text.Some? && mode == "polish" ==> output == PolishPrefix + text.value
    ensures text.Some? && mode == "action" ==> output == ActionPrefix + text.value + ActionSuffix
    ensures mode != "polish" && mode != "action" ==> text == Some(output)
  {
    if mode == "polish" then
      if PolishPrefix <= output then Some(output[|PolishPrefix|..]) else None
    else if mode == "action" then
      if |ActionPrefix| + |ActionSuffix| <= |output|
         && ActionPrefix <= output
         && output[|output| - |ActionSuffix|..] == ActionSuffix
      then
        var inner := output[|ActionPrefix|..|output| - |ActionSuffix|];
        assert output == output[..|ActionPrefix|] + inner + output[|output| - |ActionSuffix|..];
        Some(inner)
      else None
    else Some(output)
  }

  /** Every output of `Generate` gives its request text back: the templates lose nothing. */
  lemma RecoverGenerate(mode: string, text: string)
    ensures RecoverText(mode, Generate(mode, text)) == Some(text)
  {
    var output := Generate(mode, text);
    if mode == "polish" {
      assert output[|PolishPrefix|..] == text;
    } else if mode == "action" {
      assert output[|ActionPrefix|..|output| - |ActionSuffix|] == text;
      assert output[|output| - |ActionSuffix|..] == ActionSuffix;
    }
  }

  /** Within one mode, different texts never give the same output. */
  lemma GenerateInjective(mode: string, text1: string, text2: string)
    requires Generate(mode, text1) == Generate(mode, text2)
    ensures text1 == text2
  {
    RecoverGenerate(mode, text1);
    RecoverGenerate(mode, text2);
  }
}
