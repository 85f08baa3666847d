/** The chat memory and rule-based fallback of
    HealthBuddy/agents/chat_agent.py. */
module Chat {
  import opened Text

  /** One stored chat message; `time` is the ISO timestamp taken when it was stored. */
  datatype Entry = Entry(role: string, message: string, time: string)

  const AmhReply := "Your AMH seems important. I can summarize your AMH report or explain the meaning."
  const FshReply := "FSH helps evaluate fertility and hormone balance."
  const SymptomReply := "Please describe your symptoms clearly (e.g., fatigue + dizziness)."
  const DefaultReply := "I am here to help. Please ask about your reports, tests or symptoms."

  /** How many of the latest entries go into the prompt. */
  const WindowSize := 6

  /** The rule-based reply used when the model gives nothing: "amh", then
      "fsh", then "symptom", ignoring case. */
  function Fallback(prompt: string): string
  {
    var p := Lower(prompt);
    if Contains(p, "amh") then AmhReply
    else if Contains(p, "fsh") then FshReply
    else if Contains(p, "symptom") then SymptomReply
    else DefaultReply
  }

  /** `generate_reply`: the model's answer when it is non-empty, else the fallback. */
  function GenerateReply(prompt: string, llm: string -> string): string
  {
    var reply := llm(prompt);
    if reply != "" then reply else Fallback(prompt)
  }

  /** `history[-6:]`: the last six entries, or all of them when there are fewer. */
  function Window(history: seq<Entry>): seq<Entry>
  {
    if |history| <= WindowSize then history else history[|history| - WindowSize..]
  }

  function PromptLine(e: Entry): string
  {
    e.role + ": " + e.message
  }

  function PromptLines(entries: seq<Entry>): (r: seq<string>)
    ensures |r| == |entries|
    ensures forall i :: 0 <= i < |entries| ==> r[i] == PromptLine(entries[i])
  {
    if entries == [] then [] else [PromptLine(entries[0])] + PromptLines(entries[1..])
  }

  /** The prompt: one `role: message` line per windowed entry. */
  function Prompt(history: seq<Entry>): string
  {
    Join(PromptLines(Window(history)), "\n")
  }

  /** The history after one exchange: the user's entry, then the reply's. */
  function Exchange(history: seq<Entry>, message: string, reply: string, userTime: string, replyTime: string): seq<Entry>
  {
    history + [Entry("user", message, userTime), Entry("assistant", reply, replyTime)]
  }

  /** The chat files, one history per user, that `load_history` and
      `save_history` read and write. */
  class ChatAgent {
    var files: map<string, seq<Entry>>

    constructor(files0: map<string, seq<Entry>>)
      ensures files == files0
    {
      files := files0;
    }

    /** `load_history`: a user without a file has an empty history. */
    function LoadHistory(user: string): (h: seq<Entry>)
      reads this
      ensures user !in files ==> h == []
      ensures user in files ==> h == files[user]
    {
      if user in files then files[user] else []
    }

    /** `save_history`: replaces the user's file and no other. */
    method SaveHistory(user: string, history: seq<Entry>)
      modifies this
      ensures files == old(files)[user := history]
    {
      files := files[user := history];
    }

    /** `run`: store the message, ask for a reply on the windowed prompt,
        store the reply and return it. */
    method Run(user: string, message: string, llm: string -> string, userTime: string, replyTime: string)
      returns (reply: string)
      modifies this
      ensures reply == GenerateReply(Prompt(old(LoadHistory(user)) + [Entry("user", message, userTime)]), llm)
      ensures files == old(files)[user := Exchange(old(LoadHistory(user)), message, reply, userTime, replyTime)]
    {
      var history := LoadHistory(user);
      ghost var loaded := history;
      history := history + [Entry("user", message, userTime)];
      var prompt := Join(PromptLines(Window(history)), "\n");
      reply := GenerateReply(prompt, llm);
      history := history + [Entry("assistant", reply, replyTime)];
      assert history == Exchange(loaded, message, reply, userTime, replyTime);
      SaveHistory(user, history);
    }
  }

  /** A non-empty model answer is the reply, unchanged. */
  lemma ModelReplyKept(prompt: string, llm: string -> string)
    requires llm(prompt) != ""
    ensures GenerateReply(prompt, llm) == llm(prompt)
  {
  }

  /** Which fallback message is chosen, in priority order. */
  lemma FallbackChoice(prompt: string)
    ensures var p := Lower(prompt);
            && (Fallback(prompt) == AmhReply <==> Contains(p, "amh"))
            && (Fallback(prompt) == FshReply <==> !Contains(p, "amh") && Contains(p, "fsh"))
            && (Fallback(prompt) == SymptomReply <==>
                  !Contains(p, "amh") && !Contains(p, "fsh") && Contains(p, "symptom"))
            && (Fallback(prompt) == DefaultReply <==>
                  !Contains(p, "amh") && !Contains(p, "fsh") && !Contains(p, "symptom"))
  {
  }

  /** The fallback ignores letter case. */
  lemma FallbackCaseInsensitive(prompt: string)
    ensures Fallback(Lower(prompt)) == Fallback(prompt)
  {
    LowerIdempotent(prompt);
  }

  /** The window holds the last min(6, n) entries, in order. */
  lemma WindowSuffix(history: seq<Entry>)
    ensures |Window(history)| == if |history| < WindowSize then |history| else WindowSize
    ensures Window(history) == history[|history| - |Window(history)|..]
  {
  }

  /** Adding an entry slides the window: the oldest entry drops out once
      six are shown, and the new entry is always last. */
  lemma WindowSlides(history: seq<Entry>, e: Entry)
    ensures Window(history + [e]) ==
              (if |Window(history)| == WindowSize then Window(history)[1..] else Window(history)) + [e]
  {
    var h := history + [e];
    if |history| < WindowSize {
      assert Window(h) == h;
    } else {
      assert h[|h| - WindowSize..] == history[|history| - WindowSize + 1..] + [e];
    }
  }

  /** The prompt ends with the new user message's line. */
  lemma PromptEndsWithMessage(history: seq<Entry>, e: Entry)
    ensures var w := Window(history + [e]);
            && 1 <= |w| <= WindowSize
            && w[|w| - 1] == e
            && Prompt(history + [e]) ==
                 (if |w| == 1 then PromptLine(e)
                  else Join(PromptLines(w[..|w| - 1]), "\n") + "\n" + PromptLine(e))
  {
    var w := Window(history + [e]);
    WindowSlides(history, e);
    assert w[|w| - 1] == e;
    var lines := PromptLines(w);
    if |w| > 1 {
      assert lines == PromptLines(w[..|w| - 1]) + [PromptLine(e)];
      JoinSnoc(PromptLines(w[..|w| - 1]), "\n", PromptLine(e));
    }
  }

  /** An exchange keeps the earlier history and adds exactly the user's
      entry and the assistant's reply. */
  lemma ExchangeAppendsTwo(history: seq<Entry>, message: string, reply: string, userTime: string, replyTime: string)
    ensures var h := Exchange(history, message, reply, userTime, replyTime);
            && |h| == |history| + 2
            && h[..|history|] == history
            && h[|history|].role == "user" && h[|history|].message == message
            && h[|history| + 1].role == "assistant" && h[|history| + 1].message == reply
  {
  }
}
