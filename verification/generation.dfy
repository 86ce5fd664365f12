/**
  The generation backend adapter: the prompt handed to `ollama run`, and the
  fallback that keeps a failed or empty completion from reaching the reply.
 */
module Generation {
  import Text

  /** One run of `ollama run llama3.2:3b <prompt>`: its standard output, or a
      failure (non-zero exit, undecodable output, the tool missing). */
  datatype Completion = Completed(stdout: string) | CompletionFailed

  /** The reply used whenever the model gives nothing usable. */
  const Fallback: string := "Thank you for your email. I have received your message."

  /** The line that opens the email in the prompt. */
  const StartDelimiter: string := "--- START OF EMAIL ---\n"

  /** The line break after the email and the line that closes it. */
  const EndDelimiter: string := "\n--- END OF EMAIL ---\n"

  /** The instructions, ending with the line that opens the email. */
  const PromptHead: string :=
    "You are a helpful and polite email assistant. "
    + "Your task is to write a reply to the email provided below. "
    + "Keep the reply concise, professional, and friendly. "
    + "Do NOT include the subject line or headers in your output. "
    + "Do NOT include placeholders like '[Your Name]'. "
    + "Just write the body of the reply.\n\n"
    + StartDelimiter

  /** The line that closes the email, then the cue for the answer. */
  const PromptTail: string := EndDelimiter + "\nReply:"

  /** The prompt for an email whose full text is `content`: the email sits
      verbatim between the START delimiter line and the END delimiter line. */
  function Prompt(content: string): (p: string)
    ensures |p| == |PromptHead| + |content| + |PromptTail|
    ensures var at := |PromptHead|;
            && p[at - |StartDelimiter|..at] == StartDelimiter
            && p[at..at + |content|] == content
            && p[at + |content|..at + |content| + |EndDelimiter|] == EndDelimiter
  {
    PromptHead + content + PromptTail
  }

  /** Recovers the email from a prompt: the text between the opening
      instructions and the closing delimiter, if `p` has that shape. */
  function EmailOfPrompt(p: string): (c: string)
    requires |PromptHead| + |PromptTail| <= |p|
  {
    p[|PromptHead|..|p| - |PromptTail|]
  }

  /** The email is embedded verbatim: it can be read back out of the prompt. */
  lemma PromptEmbedsEmail(content: string)
    ensures EmailOfPrompt(Prompt(content)) == content
  {
  }

  /** Different emails give different prompts. */
  lemma PromptInjective(c1: string, c2: string)
    requires Prompt(c1) == Prompt(c2)
    ensures c1 == c2
  {
  }

  /** `generate_reply_with_ollama(content)`, given how the model answers. */
  function GenerateReply(content: string, complete: string -> Completion): (reply: string)
    ensures reply != []
    ensures complete(Prompt(content)).CompletionFailed? ==> reply == Fallback
    ensures complete(Prompt(content)).Completed? ==>
              var out := complete(Prompt(content)).stdout;
              (Text.AllSpace(out) ==> reply == Fallback)
              && (!Text.AllSpace(out) ==> Text.IsStripOf(reply, out))
  {
    match complete(Prompt(content))
    case CompletionFailed => Fallback
    case Completed(out) =>
      var reply := Text.Strip(out);
      if reply == [] then Fallback else reply
  }
}
