/**
  The execute button's click handler in script.js: the blank-input guard, the loading message,
  the dispatch to the four client calls, and what ends up in the output element (the rendered
  generator code with its copy text, the HTML of the other modes, or the error message).
 */
module ExecuteHandler {
  import opened Wrappers
  import opened JsStrings
  import CodeGen
  import Rendering
  import ModeUi

  /** The form values the handler reads. */
  datatype Click = Click(
    mode: string,
    language: string,
    description: string,
    codeMode: string,
    includeExplanation: bool)

  /** What the handler assigns to the output element: text content or inner HTML. For generator
      code this is the markup before `hljs.highlightAll()` rewrites the code block and
      `addCopyButton` appends the copy button. */
  datatype Shown = Text(text: string) | Html(html: string)

  datatype Outcome =
    | Refused(message: string)
    | Completed(loading: string, shown: Shown, copy: Option<string>)

  /** The value the called client function settles to; `None` when no branch of the dispatch
      matches and `result` stays undefined. */
  function Dispatch(c: Click, reply: CodeGen.Reply): (r: Option<Result<string>>)
    ensures r.None? <==> !ModeUi.KnownMode(c.mode)
  {
    if c.mode == "generator" then Some(CodeGen.Generate(c.codeMode, c.includeExplanation, reply))
    else if c.mode == "explainer" then Some(CodeGen.Explain(reply))
    else if c.mode == "reviewer" then Some(CodeGen.Review(reply))
    else if c.mode == "commenter" then Some(CodeGen.Comment(c.language, reply))
    else None
  }

  /** `error.message || 'Error processing request. Please try again.'`. */
  function ErrorText(message: string): (r: string)
    ensures r != ""
    ensures message != "" ==> r == message
  {
    if message == "" then "Error processing request. Please try again." else message
  }

  /** One click, given what the request produced (`reply` is ignored when none is sent). */
  function OnExecute(c: Click, reply: CodeGen.Reply): (o: Outcome)
    ensures o.Refused? <==> forall k :: 0 <= k < |c.description| ==> IsTrimmable(c.description[k])
    ensures o.Refused? ==> o.message == ModeUi.EmptyInputMessage(c.mode)
    ensures o.Completed? ==> o.loading == ModeUi.LoadingMessage(c.mode)
    ensures o.Completed? && o.copy.Some? ==> c.mode == "generator"
    ensures o.Completed? && o.shown.Text? ==>
      var d := Dispatch(c, reply); d.Some? && d.value.Err? && o.shown.text == ErrorText(d.value.message)
    ensures o.Completed? ==>
      match Dispatch(c, reply)
      case None => o.shown == Html("undefined") && o.copy.None?
      case Some(Err(m)) => o.shown == Text(ErrorText(m)) && o.copy.None?
      case Some(Ok(v)) =>
        if c.mode == "generator" then
          o.shown == Html(Rendering.RenderGenerated(c.language, v))
          && o.copy == Some(Rendering.CopyContent(v, c.includeExplanation))
        else o.shown == Html(v) && o.copy.None?
  {
    TrimEmptyIff(c.description);
    if Trim(c.description) == "" then Refused(ModeUi.EmptyInputMessage(c.mode))
    else
      var loading := ModeUi.LoadingMessage(c.mode);
      match Dispatch(c, reply)
      case None => Completed(loading, Html("undefined"), None)
      case Some(Err(m)) => Completed(loading, Text(ErrorText(m)), None)
      case Some(Ok(result)) =>
        if c.mode == "generator" then
          Completed(loading, Html(Rendering.RenderGenerated(c.language, result)),
                    Some(Rendering.CopyContent(result, c.includeExplanation)))
        else Completed(loading, Html(result), None)
  }

  /** Every failure of a client call is "Failed to <operation>: <cause>". */
  lemma DispatchErrorsPrefixed(c: Click, reply: CodeGen.Reply)
    requires Dispatch(c, reply).Some? && Dispatch(c, reply).value.Err?
    ensures "Failed to " <= Dispatch(c, reply).value.message
  {
    var cause := if reply.Decoded? then CodeGen.InvalidFormat else CodeGen.TransportMessage(reply);
    var op :=
      if c.mode == "generator" then "generate code"
      else if c.mode == "explainer" then "explain code"
      else if c.mode == "reviewer" then "review code"
      else "add comments to code";
    assert Dispatch(c, reply).value.message == CodeGen.Failure(op, cause);
  }

  /** Every failure reaches the page as its prefixed message; the fallback text is never shown. */
  lemma FailuresShowPrefixedMessage(c: Click, reply: CodeGen.Reply)
    requires OnExecute(c, reply).Completed? && OnExecute(c, reply).shown.Text?
    ensures "Failed to " <= OnExecute(c, reply).shown.text
  {
    DispatchErrorsPrefixed(c, reply);
  }

  /** A failed request, whether the transport or a shape check failed, never leaves partial
      output: no copy text and no rendered code. */
  lemma FailureHasNoCopy(c: Click, reply: CodeGen.Reply)
    requires Dispatch(c, reply).Some? && Dispatch(c, reply).value.Err?
    requires OnExecute(c, reply).Completed?
    ensures OnExecute(c, reply).shown.Text? && OnExecute(c, reply).copy.None?
  {
  }

  /** Generated code with a requested explanation: the copy button gets exactly the code. */
  lemma GeneratedCopyIsCode(c: Click, b: CodeGen.Body)
    requires c.mode == "generator" && c.includeExplanation
    requires exists k :: 0 <= k < |c.description| && !IsTrimmable(c.description[k])
    requires CodeGen.Truthy(b.code) && CodeGen.Truthy(b.explanation)
    requires !(c.codeMode == "multiple" && b.codes.CodeList?)
    requires !Includes(b.code.value, Rendering.CopyMarker)
    ensures OnExecute(c, CodeGen.Decoded(Some(b))).copy == Some(b.code.value)
  {
    Rendering.CopyInvertsExplanation(b.code.value, b.explanation.value);
  }
}
