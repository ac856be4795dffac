/** `call_deepseek`: one request to the text-generation service, with every
    failure of the request and of reading its reply turned into a sentinel
    string instead of an exception. */
module Client {
  import opened Text

  /** What one request to the service yields: the message content of the first
      choice, or an exception carrying its message. */
  datatype Completion = Reply(content: string) | Raised(details: string)

  /** The remote service, seen from the script: `service(n, prompt)` is what the
      request numbered `n` of a run (counting from 0) yields for that prompt.
      The number lets successive identical requests get different answers. */
  type Service = (nat, string) -> Completion

  const ErrorPrefix: string := "[ERROR: API call failed - "

  /** The text a failed call returns: the fixed prefix, the exception's message
      and a closing bracket. */
  function ErrorSentinel(details: string): string {
    ErrorPrefix + details + "]"
  }

  /** The details can be read back from a sentinel. */
  function SentinelDetails(r: string): string
    requires |r| > |ErrorPrefix| && r[..|ErrorPrefix|] == ErrorPrefix
  {
    r[|ErrorPrefix|..|r| - 1]
  }

  /** A sentinel is the prefix, the details and a closing bracket, and the
      details can be read back from it. */
  lemma SentinelRoundTrip(details: string)
    ensures var r := ErrorSentinel(details);
            && |r| == |ErrorPrefix| + |details| + 1
            && r[..|ErrorPrefix|] == ErrorPrefix
            && r[|r| - 1] == ']'
            && SentinelDetails(r) == details
  {
  }

  /** `call_deepseek(prompt)` as request number `n`. */
  function CallDeepseek(service: Service, n: nat, prompt: string): string {
    match service(n, prompt)
    case Reply(content) => Strip(content)
    case Raised(details) => ErrorSentinel(details)
  }

  /** No exception of the request or of reading its reply escapes: a reply
      comes back as its content with the surrounding whitespace removed (and is
      then trimmed), an exception as the sentinel carrying its details. */
  lemma CallDeepseekSpec(service: Service, n: nat, prompt: string)
    ensures var r := CallDeepseek(service, n, prompt);
            match service(n, prompt)
            case Reply(content) =>
              var i := Lead(content);
              && Trimmed(r) && i + |r| <= |content| && r == content[i..i + |r|]
              && AllSpace(content[..i]) && AllSpace(content[i + |r|..])
            case Raised(details) =>
              && r == ErrorSentinel(details)
              && r[..|ErrorPrefix|] == ErrorPrefix && r[|r| - 1] == ']' && SentinelDetails(r) == details
  {
    match service(n, prompt)
    case Reply(content) => StripSpec(content);
    case Raised(details) => SentinelRoundTrip(details);
  }

  /** The sentinel is indistinguishable from a reply: a service that answers
      with the sentinel text yields exactly what a failing call yields. */
  lemma FailureLooksLikeReply(failing: Service, replying: Service, n: nat, prompt: string, details: string)
    requires failing(n, prompt) == Raised(details)
    requires replying(n, prompt) == Reply(ErrorSentinel(details))
    ensures CallDeepseek(failing, n, prompt) == CallDeepseek(replying, n, prompt)
  {
    var s := ErrorSentinel(details);
    SentinelRoundTrip(details);
    StripSpec(s);
    assert s[0] == ErrorPrefix[0] == '[';
    assert "" + s + "" == s;
    StripUnique("", s, "");
  }
}
