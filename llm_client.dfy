/**
 * Reply generation: the Gemini prompt assembled from a fixed header, the last five context
 * messages and the user's text; the API-key guard; and the stub echo used when the model
 * gives no usable answer. The Gemini SDK call is an oracle `model(apiKey, prompt)`, whose
 * `None` stands for a raised exception or a response without text.
 */
module LlmClient {
  import opened Wrappers

  const Header := "You are a helpful assistant."
  const ContextLabel := "Context: "
  const StubPrefix := "(stub) You said: "
  /** How many trailing context messages reach the prompt (`context_messages[-5:]`). */
  const ContextWindow := 5

  /** The generative model: API key and prompt to an answer, `None` when the call raised or had no text. */
  type Model = (string, string) -> Option<string>

  /** Python's `sep.join(parts)`: empty for no parts, else it starts with the first and ends with the last. */
  function Join(parts: seq<string>, sep: string): (r: string)
    ensures |parts| == 0 ==> r == ""
    ensures |parts| > 0 ==> |parts[0]| <= |r| && r[..|parts[0]|] == parts[0]
    ensures |parts| > 0 ==> |parts[|parts| - 1]| <= |r| && r[|r| - |parts[|parts| - 1]|..] == parts[|parts| - 1]
  {
    if |parts| == 0 then ""
    else if |parts| == 1 then parts[0]
    else parts[0] + sep + Join(parts[1..], sep)
  }

  /** Python's `xs[-5:]`: the last five elements, or all of them when there are fewer. */
  function Recent(ctx: seq<string>): (r: seq<string>)
    ensures |r| == if |ctx| < ContextWindow then |ctx| else ContextWindow
    ensures r == ctx[|ctx| - |r|..]
  {
    if |ctx| <= ContextWindow then ctx else ctx[|ctx| - ContextWindow..]
  }

  /** `f"Context: {c}"` for each message, in order. */
  function ContextLines(cs: seq<string>): (lines: seq<string>)
    ensures |lines| == |cs|
    ensures forall i :: 0 <= i < |cs| ==> lines[i] == ContextLabel + cs[i]
  {
    if cs == [] then [] else [ContextLabel + cs[0]] + ContextLines(cs[1..])
  }

  /** The `prompt_parts` list: header, one line per recent context message, the user's text. */
  function PromptParts(userText: string, ctx: seq<string>): (parts: seq<string>)
    ensures |parts| == |Recent(ctx)| + 2
    ensures parts[0] == Header && parts[|parts| - 1] == userText
    ensures forall i :: 0 <= i < |Recent(ctx)| ==> parts[i + 1] == ContextLabel + Recent(ctx)[i]
  {
    [Header] + ContextLines(Recent(ctx)) + [userText]
  }

  /** Each context message as its own `"Context: " + c + "\n"` block, concatenated. */
  function ContextBlock(cs: seq<string>): string
  {
    if cs == [] then "" else ContextLabel + cs[0] + "\n" + ContextBlock(cs[1..])
  }

  /** Joining context lines followed by the user's text with newlines. */
  lemma {:induction false} JoinContextThenText(cs: seq<string>, userText: string)
    ensures Join(ContextLines(cs) + [userText], "\n") == ContextBlock(cs) + userText
  {
    if cs == [] {
      assert ContextLines(cs) + [userText] == [userText];
    } else {
      var line, rest := ContextLabel + cs[0], ContextLines(cs[1..]) + [userText];
      var parts := [line] + rest;
      assert ContextLines(cs) + [userText] == parts;
      assert |parts| > 1 && parts[0] == line && parts[1..] == rest;
      assert Join(parts, "\n") == line + "\n" + Join(rest, "\n");
      JoinContextThenText(cs[1..], userText);
      AppendAssoc(line + "\n", ContextBlock(cs[1..]), userText);
    }
  }

  /** Regrouping a concatenation of three strings. */
  lemma AppendAssoc(a: string, b: string, c: string)
    ensures a + (b + c) == (a + b) + c
  {
  }

  /**
   * The prompt sent to the model, as one string: the header, a newline, a
   * `"Context: " + c + "\n"` line for each of the last five context messages in their
   * original order, then the user's text.
   */
  function Prompt(userText: string, ctx: seq<string>): (prompt: string)
    ensures prompt == Header + "\n" + ContextBlock(Recent(ctx)) + userText
  {
    var parts := PromptParts(userText, ctx);
    var rest := ContextLines(Recent(ctx)) + [userText];
    assert parts == [Header] + rest;
    assert |parts| > 1 && parts[0] == Header && parts[1..] == rest;
    assert Join(parts, "\n") == Header + "\n" + Join(rest, "\n");
    JoinContextThenText(Recent(ctx), userText);
    AppendAssoc(Header + "\n", ContextBlock(Recent(ctx)), userText);
    Join(parts, "\n")
  }

  /** With no context the prompt is just the header, a newline and the user's text. */
  lemma PromptWithoutContext(userText: string)
    ensures Prompt(userText, []) == Header + "\n" + userText
  {
    var empty: seq<string> := [];
    var h := Header + "\n";
    assert Recent(empty) == empty;
    assert ContextBlock(empty) == "";
    assert Prompt(userText, empty) == h + "" + userText;
    EmptyMiddle(h, userText);
  }

  /** An empty string in the middle of a concatenation changes nothing. */
  lemma EmptyMiddle(a: string, b: string)
    ensures a + "" + b == a + b
  {
  }

  /** Appending one more context line to the lines of a prefix. */
  lemma ContextLinesSnoc(cs: seq<string>, i: nat)
    requires i < |cs|
    ensures ContextLines(cs[..i + 1]) == ContextLines(cs[..i]) + [ContextLabel + cs[i]]
  {
    var a, b := ContextLines(cs[..i + 1]), ContextLines(cs[..i]) + [ContextLabel + cs[i]];
    assert |a| == |b|;
    forall j | 0 <= j < |a| ensures a[j] == b[j] {
      assert cs[..i + 1][j] == cs[j];
    }
  }

  /** The prompt-building loop of `_try_gemini`. */
  method BuildPrompt(userText: string, ctx: seq<string>) returns (prompt: string)
    ensures prompt == Prompt(userText, ctx)
  {
    var parts := [Header];
    var recent := Recent(ctx);
    if |ctx| > 0 {
      for i := 0 to |recent|
        invariant parts == [Header] + ContextLines(recent[..i])
      {
        ContextLinesSnoc(recent, i);
        parts := parts + [ContextLabel + recent[i]];
      }
      assert recent[..|recent|] == recent;
    } else {
      assert ContextLines(recent) == [];
    }
    parts := parts + [userText];
    assert parts == PromptParts(userText, ctx);
    prompt := Join(parts, "\n");
  }

  /**
   * What `_try_gemini` yields: nothing without a key (`if not api_key`: an absent or empty key,
   * both falsy in Python), otherwise the model's answer to the prompt.
   */
  function GeminiAnswer(userText: string, ctx: seq<string>, apiKey: Option<string>, model: Model): (answer: Option<string>)
    ensures apiKey.None? || apiKey.value == "" ==> answer == None
    ensures apiKey.Some? && apiKey.value != "" ==> answer == model(apiKey.value, Header + "\n" + ContextBlock(Recent(ctx)) + userText)
  {
    if apiKey.None? || apiKey.value == "" then None else model(apiKey.value, Prompt(userText, ctx))
  }

  /** `_try_gemini`: returns `None` without consulting the model when the key is missing. */
  method TryGemini(userText: string, ctx: seq<string>, apiKey: Option<string>, model: Model) returns (answer: Option<string>)
    ensures apiKey.None? || apiKey.value == "" ==> answer == None
    ensures apiKey.Some? && apiKey.value != "" ==> answer == model(apiKey.value, Prompt(userText, ctx))
  {
    if apiKey.None? || apiKey.value == "" {
      return None;
    }
    var prompt := BuildPrompt(userText, ctx);
    answer := model(apiKey.value, prompt);
  }

  /**
   * The fallback rule of `generate_reply`: a non-empty answer is the reply; otherwise the
   * reply is the stub echo of the user's text. Either way the reply is never empty.
   */
  function Fallback(answer: Option<string>, userText: string): (reply: string)
    ensures reply != ""
    ensures answer.Some? && answer.value != "" ==> reply == answer.value
    ensures !(answer.Some? && answer.value != "") ==> reply == StubPrefix + userText
  {
    if answer.Some? && answer.value != "" then answer.value else StubPrefix + userText
  }

  /** What `generate_reply` returns for the given key and model; never empty. */
  function Reply(userText: string, ctx: seq<string>, apiKey: Option<string>, model: Model): (reply: string)
    ensures reply != ""
  {
    Fallback(GeminiAnswer(userText, ctx, apiKey, model), userText)
  }

  /** Without a key the reply is the stub echo, whatever the model would have answered. */
  lemma StubWithoutKey(userText: string, ctx: seq<string>, apiKey: Option<string>, model: Model)
    requires apiKey.None? || apiKey.value == ""
    ensures Reply(userText, ctx, apiKey, model) == StubPrefix + userText
  {
  }

  /** `generate_reply`: the model's non-empty answer to the built prompt, or else the stub echo. */
  method GenerateReply(userText: string, ctx: seq<string>, apiKey: Option<string>, model: Model) returns (reply: string)
    ensures reply == Reply(userText, ctx, apiKey, model)
  {
    var gemini := TryGemini(userText, ctx, apiKey, model);
    reply := Fallback(gemini, userText);
  }
}
