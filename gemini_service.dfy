/** The model-facing side of the planner's turn handler: the prompt sent to the hosted
    language model, the clean-up of its raw reply, and the fallback replies that keep a
    turn from ever failing. The model call and `JSON.parse` are passed in as functions:
    `generate` stands for the SDK call together with reading the reply text, `parse`
    for `JSON.parse`, `None` being the syntax error it throws. */
module GeminiService {
  import opened Wrappers
  import opened Json
  import opened Text
  import opened Instructions

  /** The prompt template, for a given system text: the system text, the history joined
      by newlines, then the user's message, each on a line of its own. */
  function Prompt(system: string, userMessage: string, history: seq<string>): string {
    PromptHead(system) + Join(history, "\n") + UserLine + userMessage + PromptTail
  }

  /** What the template puts before the history, between the history and the user's
      message, and after the user's message. */
  function PromptHead(system: string): string {
    "\n    " + system + "\n    \n    Conversation so far:\n    "
  }
  const UserLine: string := "\n    \n    User: "
  const PromptTail: string := "\n    AI:\n    "

  /** The prompt `askGemini` sends: an omitted history counts as an empty one. */
  function BuildPrompt(userMessage: string, history: Option<seq<string>>): string {
    Prompt(SystemPrompt, userMessage, history.GetOr([]))
  }

  /** The prompt opens with the system text and closes with the user's message after a
      "User: " label; with no history it is nothing but those and the fixed labels. */
  lemma PromptFrame(system: string, userMessage: string, history: seq<string>)
    ensures var p := Prompt(system, userMessage, history);
      var k := |p| - |PromptTail|;
      |PromptHead(system)| + |UserLine| + |userMessage| <= k &&
      p[|"\n    "|..|"\n    "| + |system|] == system &&
      p[k - |userMessage| - |"User: "|..k] == "User: " + userMessage &&
      p[k..] == PromptTail
    ensures history == [] ==> Prompt(system, userMessage, history) == PromptHead(system) + UserLine + userMessage + PromptTail
  {
    var p := Prompt(system, userMessage, history);
    var j := Join(history, "\n");
    assert p == "\n    " + system + ("\n    \n    Conversation so far:\n    " + j + "\n    \n    ") + ("User: " + userMessage) + PromptTail;
    if history == [] {
      assert PromptHead(system) + j == PromptHead(system);
    }
  }

  /** Omitting the history is the same as passing an empty one. */
  lemma OmittedHistoryIsEmpty(userMessage: string)
    ensures BuildPrompt(userMessage, None) == BuildPrompt(userMessage, Some([]))
  {
  }

  /** History entry `i` stands in the prompt after the system text, in its place in the
      history, followed by a newline when another entry comes after it, and before the
      user's message. */
  lemma {:induction false} PromptHistoryEntry(system: string, userMessage: string, history: seq<string>, i: nat)
    requires i < |history|
    ensures var p := Prompt(system, userMessage, history);
      var at := |PromptHead(system)| + EntryOffset(history, "\n", i);
      at + |history[i]| + |UserLine| + |userMessage| + |PromptTail| <= |p| &&
      p[at..at + |history[i]|] == history[i] &&
      (i + 1 < |history| ==> p[at + |history[i]|] == '\n' &&
                             |PromptHead(system)| + EntryOffset(history, "\n", i + 1) == at + |history[i]| + 1)
  {
    var j := Join(history, "\n");
    var h := PromptHead(system);
    var p := Prompt(system, userMessage, history);
    assert p == h + j + (UserLine + userMessage + PromptTail);
    JoinEntry(history, "\n", i);
    var o := EntryOffset(history, "\n", i);
    SliceAfter(h, j + (UserLine + userMessage + PromptTail), o, o + |history[i]|);
    if i + 1 < |history| {
      JoinSeparator(history, "\n", i);
      SliceAfter(h, j + (UserLine + userMessage + PromptTail), o + |history[i]|, o + |history[i]| + 1);
    }
  }

  // ---------------------------------------------------------------------------
  // Cleaning the raw reply
  // ---------------------------------------------------------------------------

  const JsonFence: string := "```json"

  /** An opening fence in any letter case starts with a plain fence. */
  lemma JsonFenceIsFence(s: string, i: nat)
    requires MatchesAt(s, i, JsonFence, true)
    ensures MatchesAt(s, i, Fence, false)
  {
    assert CharMatches(s[i + 0], JsonFence[0], true);
    assert CharMatches(s[i + 1], JsonFence[1], true);
    assert CharMatches(s[i + 2], JsonFence[2], true);
    FenceAt(s, i);
  }

  /** The reply text with every "```json" (any letter case) removed, then every "```",
      then surrounding whitespace: what is left has no fence of either kind and no
      whitespace at its ends. */
  function CleanReply(text: string): (clean: string)
    ensures forall i :: 0 <= i ==> !MatchesAt(clean, i, Fence, false)
    ensures forall i :: 0 <= i ==> !MatchesAt(clean, i, JsonFence, true)
    ensures Trimmed(clean)
  {
    var withoutJsonFences := RemoveMatches(text, JsonFence, true);
    var withoutFences := RemoveMatches(withoutJsonFences, Fence, false);
    RemoveFencesLeavesNone(withoutJsonFences);
    NoFenceAfterTrim(withoutFences);
    var clean := Trim(withoutFences);
    assert forall i :: 0 <= i ==> !MatchesAt(clean, i, JsonFence, true) by {
      forall i | 0 <= i && MatchesAt(clean, i, JsonFence, true) ensures false {
        JsonFenceIsFence(clean, i);
      }
    }
    clean
  }

  /** The first pass takes off an opening fence (in any letter case) and leaves a middle
      with no "```" in it and the closing fence alone: every "```json" starts with a
      "```", and one starting in the middle would have to reach past the closing fence. */
  lemma JsonFencePass(open: string, m: string)
    requires |open| == |JsonFence| && MatchesAt(open, 0, JsonFence, true)
    requires forall i :: 0 <= i ==> !MatchesAt(m, i, Fence, false)
    ensures RemoveMatches(open + m + Fence, JsonFence, true) == m + Fence
  {
    var s := open + m + Fence;
    assert MatchesAt(s, 0, JsonFence, true) by {
      forall k | 0 <= k < |JsonFence| ensures CharMatches(s[k], JsonFence[k], true) {
        assert s[k] == open[k];
      }
    }
    var u := m + Fence;
    assert s[|JsonFence|..] == u;
    assert |JsonFence| == 7;
    forall i | 0 <= i < |u| ensures !MatchesAt(u, i, JsonFence, true) {
      if MatchesAt(u, i, JsonFence, true) {
        JsonFenceIsFence(u, i);
        FenceAt(u, i);
        FenceAt(m, i);
      }
    }
    RemoveMatchesNoMatch(u, JsonFence, true);
  }

  /** A reply wrapped in an opening fence (in any letter case) and a closing fence, with
      whitespace inside them, comes out as the bare body, provided the body has no "```"
      of its own; single backticks in the body are kept. */
  lemma FencedReplyUnwraps(open: string, w1: string, body: string, w2: string)
    requires |open| == |JsonFence| && MatchesAt(open, 0, JsonFence, true)
    requires AllWhitespace(w1) && AllWhitespace(w2)
    requires Trimmed(body) && forall i :: 0 <= i ==> !MatchesAt(body, i, Fence, false)
    ensures CleanReply(open + w1 + body + w2 + Fence) == body
  {
    var m := w1 + body + w2;
    assert open + w1 + body + w2 + Fence == open + m + Fence;
    assert !IsWhitespace('`');
    forall i | 0 <= i ensures !MatchesAt(m, i, Fence, false) {
      FenceAt(m, i);
      if i + 3 <= |m| && m[i] == '`' && m[i + 1] == '`' && m[i + 2] == '`' {
        // backticks are not whitespace, so the run lies inside the body
        assert |w1| <= i && i + 2 < |w1| + |body|;
        var j := i - |w1|;
        assert body[j] == m[i] && body[j + 1] == m[i + 1] && body[j + 2] == m[i + 2];
        FenceAt(body, j);
      }
    }
    JsonFencePass(open, m);
    FencePass(m);
    TrimSurrounded(w1, body, w2);
  }

  /** Cleaning a reply that is already clean changes nothing. */
  lemma CleanReplyIdempotent(text: string)
    ensures CleanReply(CleanReply(text)) == CleanReply(text)
  {
    CleanTextIsFixed(CleanReply(text));
  }

  /** Text without fences and without whitespace at its ends passes the clean-up unchanged. */
  lemma CleanTextIsFixed(c: string)
    requires forall i :: 0 <= i ==> !MatchesAt(c, i, Fence, false)
    requires Trimmed(c)
    ensures CleanReply(c) == c
  {
    forall i | 0 <= i < |c| ensures !MatchesAt(c, i, JsonFence, true) {
      if MatchesAt(c, i, JsonFence, true) {
        JsonFenceIsFence(c, i);
      }
    }
    RemoveMatchesNoMatch(c, JsonFence, true);
    RemoveMatchesNoMatch(c, Fence, false);
    assert CleanReply(c) == Trim(c);
    assert [] + c + [] == c;
    TrimSurrounded([], c, []);
  }

  // ---------------------------------------------------------------------------
  // One model turn
  // ---------------------------------------------------------------------------

  /** The reply when the model's text is not valid JSON. */
  function ParseFailureReply(): Json {
    Reply("Sorry, I had trouble understanding. Could you please repeat?", "source")
  }

  /** The reply when the model call itself fails. */
  function ApiErrorReply(): Json {
    Reply("Something went wrong while planning your trip. Please try again.", "source")
  }

  /** Both fallbacks send the user back to the first question, and they can be told apart. */
  lemma FallbacksDiffer()
    ensures ParseFailureReply().fields["ui"] == ApiErrorReply().fields["ui"] == Str("source")
    ensures ParseFailureReply() != ApiErrorReply()
  {
    assert |ParseFailureReply().fields["resp"].s| == 60;
    assert |ApiErrorReply().fields["resp"].s| == 64;
  }

  /** Asks the model for the next turn. A failed call gives the error fallback; a reply
      whose cleaned text parses gives the parsed value as it is; one that does not parse
      gives the parse fallback. No failure escapes. */
  method AskGemini(
    userMessage: string,
    history: Option<seq<string>>,
    generate: string -> Result<string, string>,
    parse: string -> Option<Json>)
    returns (reply: Json)
    ensures generate(BuildPrompt(userMessage, history)).Failure? ==> reply == ApiErrorReply()
    ensures generate(BuildPrompt(userMessage, history)).Success? ==>
      var clean := CleanReply(generate(BuildPrompt(userMessage, history)).value);
      (parse(clean).Some? ==> reply == parse(clean).value) &&
      (parse(clean).None? ==> reply == ParseFailureReply())
  {
    var prompt := BuildPrompt(userMessage, history);
    var outcome := generate(prompt);
    if outcome.Failure? {
      return ApiErrorReply();
    }
    var text := outcome.value;
    var parsed: Json;
    var cleanText := CleanReply(text);
    match parse(cleanText) {
      case Some(value) =>
        parsed := value;
      case None =>
        parsed := ParseFailureReply();
    }
    reply := parsed;
  }
}
