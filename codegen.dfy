/**
  The four client calls of codegen.js (`generateCode`, `explainCode`, `reviewCode`,
  `commentCode`) from the moment the completion endpoint has answered: the shape check of the
  decoded JSON body, the mode-specific projection to a string, and the `catch` that re-raises
  every failure as "Failed to <operation>: <cause>".
 */
module CodeGen {
  import opened Wrappers
  import opened JsStrings

  /** The `codes` field: absent or falsy, an array of strings, or some other truthy value
      (which passes the shape check but not `Array.isArray`). */
  datatype Codes = NoCodes | CodeList(items: seq<string>) | OtherCodes

  /** The decoded JSON object. A string field is `None` when it is missing or not a string;
      `score` is `None` when `typeof data.score !== 'number'`. */
  datatype Body = Body(
    code: Option<string>,
    explanation: Option<string>,
    codes: Codes,
    review: Option<string>,
    score: Option<real>,
    commentedCode: Option<string>,
    summary: Option<string>)

  /** What the request produced: a non-2xx status, an exception thrown by `fetch` or by
      `response.json()` (with its message), or a decoded body (`None` for `null` and other
      falsy JSON values). */
  datatype Reply = NotOk(status: nat) | Thrown(message: string) | Decoded(body: Option<Body>)

  /** JavaScript truthiness of a string field: present and not the empty string. */
  predicate Truthy(f: Option<string>)
  {
    f.Some? && f.value != ""
  }

  const InvalidFormat: string := "Invalid response format from AI"

  /** The message of the error raised before the body is looked at: a thrown error keeps its
      message, and a failed status is named after "HTTP error! Status: ", from which it can be
      read back. */
  function TransportMessage(reply: Reply): (r: string)
    requires !reply.Decoded?
    ensures reply.Thrown? ==> r == reply.message
    ensures reply.NotOk? ==>
      && |r| > 20 && r[..20] == "HTTP error! Status: "
      && (forall k :: 0 <= k < |r[20..]| ==> '0' <= r[20..][k] <= '9')
      && ParseDecimal(r[20..]) == reply.status
  {
    match reply
    case NotOk(status) =>
      var head, digits := "HTTP error! Status: ", NatToString(status);
      ParseNatToString(status);
      assert (head + digits)[..20] == head && (head + digits)[20..] == digits;
      head + digits
    case Thrown(message) => message
  }

  /** The message a client function throws: `Failed to ${operation}: ${cause}`. */
  function Failure(operation: string, cause: string): string
  {
    "Failed to " + operation + ": " + cause
  }

  /** The `catch` block: an error's message gets the operation's prefix, a value passes. */
  function Wrap(operation: string, inner: Result<string>): (r: Result<string>)
    ensures r.Ok? <==> inner.Ok?
    ensures r.Ok? ==> r.value == inner.value
    ensures r.Err? ==> r.message == Failure(operation, inner.message)
  {
    match inner
    case Ok(v) => Ok(v)
    case Err(m) => Err(Failure(operation, m))
  }

  // ---------------------------------------------------------------- generateCode

  /** The body is rejected when it is null or neither `code` nor `codes` is truthy. */
  predicate GenerateShapeInvalid(body: Option<Body>)
  {
    body.None? || (!Truthy(body.value.code) && body.value.codes.NoCodes?)
  }

  function SolutionLabel(n: nat): string
  {
    "// Solution " + NatToString(n) + ":\n"
  }

  /** `data.codes.map((code, index) => ...)`: each implementation under its 1-based label. */
  function Solutions(items: seq<string>): (r: seq<string>)
    ensures |r| == |items|
    ensures forall i :: 0 <= i < |items| ==> r[i] == SolutionLabel(i + 1) + items[i]
  {
    seq(|items|, i requires 0 <= i < |items| => SolutionLabel(i + 1) + items[i])
  }

  /** The multiple-solution rendering: the labelled implementations joined by a blank line. */
  function JoinSolutions(items: seq<string>): string
  {
    Join(Solutions(items), "\n\n")
  }

  /** The text `generateCode` appends after the code when an explanation is requested. */
  function WithExplanation(code: string, explanation: string): string
  {
    code + "\n\n/*\nExplanation:\n" + explanation + "\n*/"
  }

  /** `data.code || ''`. */
  function CodeOrEmpty(code: Option<string>): (r: string)
    ensures Truthy(code) ==> r == code.value
    ensures !Truthy(code) ==> r == ""
  {
    if code.Some? then code.value else ""
  }

  function ProjectGenerate(codeMode: string, includeExplanation: bool, body: Option<Body>): Result<string>
  {
    if GenerateShapeInvalid(body) then Err(InvalidFormat)
    else if codeMode == "multiple" && body.value.codes.CodeList? then
      Ok(JoinSolutions(body.value.codes.items))
    else if includeExplanation && Truthy(body.value.explanation) then
      Ok(WithExplanation(CodeOrEmpty(body.value.code), body.value.explanation.value))
    else
      Ok(CodeOrEmpty(body.value.code))
  }

  /** `generateCode(language, description, tone, mode, includeExplanation)` once the request has
      completed; `codeMode` is its `mode` argument. */
  function Generate(codeMode: string, includeExplanation: bool, reply: Reply): (r: Result<string>)
    ensures !reply.Decoded? ==> r == Err(Failure("generate code", TransportMessage(reply)))
    ensures reply.Decoded? ==> (r.Err? <==> GenerateShapeInvalid(reply.body))
    ensures reply.Decoded? && r.Err? ==> r.message == Failure("generate code", InvalidFormat)
    ensures reply.Decoded? && r.Ok? && codeMode == "multiple" && reply.body.value.codes.CodeList? ==>
      r.value == JoinSolutions(reply.body.value.codes.items)
    ensures reply.Decoded? && r.Ok? && !(codeMode == "multiple" && reply.body.value.codes.CodeList?) ==>
      r.value == (if includeExplanation && Truthy(reply.body.value.explanation)
                  then WithExplanation(CodeOrEmpty(reply.body.value.code), reply.body.value.explanation.value)
                  else CodeOrEmpty(reply.body.value.code))
  {
    Wrap("generate code",
      if reply.Decoded? then ProjectGenerate(codeMode, includeExplanation, reply.body)
      else Err(TransportMessage(reply)))
  }

  /** An empty `codes` array is truthy: with no `code` the body is still accepted. */
  lemma EmptyCodesAccepted(codeMode: string, includeExplanation: bool, b: Body)
    requires b.codes == CodeList([]) && !Truthy(b.code)
    ensures Generate(codeMode, includeExplanation, Decoded(Some(b))).Ok?
    ensures codeMode == "multiple" ==> Generate(codeMode, includeExplanation, Decoded(Some(b))) == Ok("")
  {
  }

  /** In multiple mode with a `codes` array the explanation is never appended: the result does not
      depend on the checkbox or on the `explanation` field. */
  lemma MultipleIgnoresExplanation(b: Body, e: Option<string>, inc1: bool, inc2: bool)
    requires b.codes.CodeList?
    ensures Generate("multiple", inc1, Decoded(Some(b)))
         == Generate("multiple", inc2, Decoded(Some(b.(explanation := e))))
  {
  }

  /** One more implementation adds a blank line, the next label and that implementation. */
  lemma {:induction false} JoinSolutionsSnoc(items: seq<string>, x: string)
    requires items != []
    ensures JoinSolutions(items + [x]) == JoinSolutions(items) + "\n\n" + SolutionLabel(|items| + 1) + x
  {
    assert Solutions(items + [x]) == Solutions(items) + [SolutionLabel(|items| + 1) + x];
    JoinSnoc(Solutions(items), SolutionLabel(|items| + 1) + x, "\n\n");
  }

  /** The multiple-solution text starts with the first implementation under label 1. */
  lemma {:induction false} JoinSolutionsStart(items: seq<string>)
    requires items != []
    ensures JoinSolutions(items) == SolutionLabel(1) + items[0]
         || SolutionLabel(1) + items[0] + "\n\n" <= JoinSolutions(items)
  {
    var parts := Solutions(items);
    if |parts| > 1 {
      assert JoinSolutions(items) == parts[0] + "\n\n" + Join(parts[1..], "\n\n");
    }
  }

  /** Labels are 1-based and tell the implementations apart: no two carry the same label. */
  lemma LabelsDistinct(m: nat, n: nat)
    requires SolutionLabel(m) == SolutionLabel(n)
    ensures m == n
  {
    var a, b := SolutionLabel(m), SolutionLabel(n);
    assert NatToString(m) == a[12..|a| - 2];
    assert NatToString(n) == b[12..|b| - 2];
    NatToStringInjective(m, n);
  }

  /** The three-solution example: exact labels, 1-based, separated by blank lines. */
  lemma ThreeSolutions()
    ensures JoinSolutions(["A", "B", "C"])
         == "// Solution 1:\nA" + "\n\n" + "// Solution 2:\nB" + "\n\n" + "// Solution 3:\nC"
  {
    var p := Solutions(["A", "B", "C"]);
    assert NatToString(1) == "1" && NatToString(2) == "2" && NatToString(3) == "3";
    assert p[0] == "// Solution 1:\nA" && p[1] == "// Solution 2:\nB" && p[2] == "// Solution 3:\nC";
    var sep := "\n\n";
    assert p[1..][1..] == [p[2]];
    assert Join(p[1..], sep) == p[1] + sep + p[2];
    assert Join(p, sep) == p[0] + sep + (p[1] + sep + p[2]);
  }

  /** Without a requested (or a truthy) explanation the code comes back unchanged. */
  lemma GenerateCodeUnchanged(codeMode: string, includeExplanation: bool, b: Body)
    requires Truthy(b.code) && !(codeMode == "multiple" && b.codes.CodeList?)
    requires !includeExplanation || !Truthy(b.explanation)
    ensures Generate(codeMode, includeExplanation, Decoded(Some(b))) == Ok(b.code.value)
  {
  }

  /** With a requested and truthy explanation the code is followed by exactly the comment block. */
  lemma GenerateAppendsExplanation(codeMode: string, b: Body)
    requires Truthy(b.explanation) && (Truthy(b.code) || !b.codes.NoCodes?)
    requires !(codeMode == "multiple" && b.codes.CodeList?)
    ensures Generate(codeMode, true, Decoded(Some(b)))
         == Ok(CodeOrEmpty(b.code) + "\n\n/*\nExplanation:\n" + b.explanation.value + "\n*/")
  {
  }

  // ---------------------------------------------------------------- explainCode

  function ProjectExplain(body: Option<Body>): Result<string>
  {
    if body.None? || !Truthy(body.value.explanation) then Err(InvalidFormat)
    else Ok(body.value.explanation.value)
  }

  /** `explainCode(language, code)` once the request has completed. */
  function Explain(reply: Reply): (r: Result<string>)
    ensures !reply.Decoded? ==> r == Err(Failure("explain code", TransportMessage(reply)))
    ensures reply.Decoded? ==> (r.Err? <==> reply.body.None? || !Truthy(reply.body.value.explanation))
    ensures reply.Decoded? && r.Err? ==> r.message == Failure("explain code", InvalidFormat)
    ensures r.Ok? ==> reply.Decoded? && r.value == reply.body.value.explanation.value && r.value != ""
  {
    Wrap("explain code", if reply.Decoded? then ProjectExplain(reply.body) else Err(TransportMessage(reply)))
  }

  // ---------------------------------------------------------------- reviewCode

  /** The style class of the score marker: three bands split at 7 and 4. */
  function ScoreClass(score: real): (c: string)
    ensures c == "high" <==> score >= 7.0
    ensures c == "medium" <==> 4.0 <= score < 7.0
    ensures c == "low" <==> score < 4.0
  {
    if score >= 7.0 then "high" else if score >= 4.0 then "medium" else "low"
  }

  /** The bands in increasing order. */
  function BandRank(c: string): nat
  {
    if c == "high" then 2 else if c == "medium" then 1 else 0
  }

  /** A higher score never gets a lower band. */
  lemma ScoreClassMonotone(s: real, t: real)
    requires s <= t
    ensures BandRank(ScoreClass(s)) <= BandRank(ScoreClass(t))
  {
  }

  const MarkerOpen: string := "<div class='score"

  /** `'>` closes the marker at `j`, and no line terminator lies between `k` and `j`. */
  ghost predicate ClosesAt(s: string, k: int, j: int)
  {
    0 <= k <= j && j + 2 <= |s| && s[j..j + 2] == "'>"
    && forall m :: k <= m < j ==> !IsLineTerminator(s[m])
  }

  /** `/<div class='score.*?'>/` matches `s[i..j + 2]`. */
  ghost predicate MarkerAt(s: string, i: int, j: int)
  {
    0 <= i && i + |MarkerOpen| <= |s| && s[i..i + |MarkerOpen|] == MarkerOpen
    && ClosesAt(s, i + |MarkerOpen|, j)
  }

  /** The match `String.prototype.replace` uses: leftmost start, then the shortest lazy run. */
  ghost predicate FirstMarker(s: string, i: int, j: int)
  {
    MarkerAt(s, i, j)
    && (forall i', j' :: 0 <= i' < i ==> !MarkerAt(s, i', j'))
    && (forall j' :: j' < j ==> !MarkerAt(s, i, j'))
  }

  /** The lazy `.*?'>`: the first `'>` at or after `k`, unless a line terminator comes first. */
  function FindClose(s: string, k: nat): (r: Option<nat>)
    ensures r.Some? ==> ClosesAt(s, k, r.value) && forall j :: j < r.value ==> !ClosesAt(s, k, j)
    ensures r.None? ==> forall j :: !ClosesAt(s, k, j)
    decreases |s| - k
  {
    if k + 2 > |s| then None
    else if s[k..k + 2] == "'>" then Some(k)
    else if IsLineTerminator(s[k]) then None
    else
      assert forall j :: ClosesAt(s, k, j) <==> (j != k && ClosesAt(s, k + 1, j));
      FindClose(s, k + 1)
  }

  /** The regular-expression search from `from` on: try each start position in turn. */
  function FindMarker(s: string, from: nat): (r: Option<(nat, nat)>)
    ensures r.Some? ==> (var (i, j) := r.value;
      && from <= i && MarkerAt(s, i, j)
      && (forall i', j' :: from <= i' < i ==> !MarkerAt(s, i', j'))
      && (forall j' :: j' < j ==> !MarkerAt(s, i, j')))
    ensures r.None? ==> forall i, j :: from <= i ==> !MarkerAt(s, i, j)
    decreases |s| - from
  {
    if from + |MarkerOpen| > |s| then None
    else if s[from..from + |MarkerOpen|] == MarkerOpen then
      match FindClose(s, from + |MarkerOpen|)
      case Some(j) => Some((from, j))
      case None => FindMarker(s, from + 1)
    else FindMarker(s, from + 1)
  }

  /** `review.replace(/<div class='score.*?'>/, "<div class='score " + cls + "'>")`. */
  function ReplaceScoreMarker(s: string, cls: string): (r: string)
    ensures (forall i, j :: !MarkerAt(s, i, j)) ==> r == s
    ensures forall i, j :: FirstMarker(s, i, j) ==>
      r == s[..i] + "<div class='score " + cls + "'>" + s[j + 2..]
  {
    match FindMarker(s, 0)
    case None => s
    case Some((i, j)) =>
      assert FirstMarker(s, i, j);
      s[..i] + "<div class='score " + cls + "'>" + s[j + 2..]
  }

  /** Whenever the pattern matches somewhere, there is a first match (the one that is replaced). */
  lemma FirstMarkerExists(s: string, i: int, j: int)
    requires MarkerAt(s, i, j)
    ensures exists i', j' :: FirstMarker(s, i', j')
  {
    var (i', j') := FindMarker(s, 0).value;
    assert FirstMarker(s, i', j');
  }

  function ProjectReview(body: Option<Body>): Result<string>
  {
    if body.None? || !Truthy(body.value.review) || body.value.score.None? then Err(InvalidFormat)
    else Ok(ReplaceScoreMarker(body.value.review.value, ScoreClass(body.value.score.value)))
  }

  /** `reviewCode(language, code)` once the request has completed. */
  function Review(reply: Reply): (r: Result<string>)
    ensures !reply.Decoded? ==> r == Err(Failure("review code", TransportMessage(reply)))
    ensures reply.Decoded? ==>
      (r.Err? <==> reply.body.None? || !Truthy(reply.body.value.review) || reply.body.value.score.None?)
    ensures reply.Decoded? && r.Err? ==> r.message == Failure("review code", InvalidFormat)
    ensures r.Ok? ==> (reply.Decoded? &&
      r.value == ReplaceScoreMarker(reply.body.value.review.value, ScoreClass(reply.body.value.score.value)))
  {
    Wrap("review code", if reply.Decoded? then ProjectReview(reply.body) else Err(TransportMessage(reply)))
  }

  /** A review with exactly the marker `<div class='score'>` up front gets the band for its score
      there, and the rest of the text is kept. */
  lemma ReviewRewritesLeadingMarker(b: Body, rest: string)
    requires b.review == Some("<div class='score'>" + rest) && b.score.Some?
    ensures Review(Decoded(Some(b)))
         == Ok("<div class='score " + ScoreClass(b.score.value) + "'>" + rest)
  {
    var s := b.review.value;
    var cls := ScoreClass(b.score.value);
    assert s[..17] == MarkerOpen && s[17..19] == "'>";
    assert MarkerAt(s, 0, 17);
    assert FirstMarker(s, 0, 17);
    assert s[..0] + "<div class='score " + cls + "'>" + s[19..]
        == "<div class='score " + cls + "'>" + rest;
    assert ReplaceScoreMarker(s, cls) == "<div class='score " + cls + "'>" + rest;
    assert Truthy(b.review);
    assert ProjectReview(Some(b)) == Ok(ReplaceScoreMarker(s, cls));
  }

  // ---------------------------------------------------------------- commentCode

  const CommentLead: string := "\n      "
  const CommentMiddle: string := "\n      <h3>Commented Code</h3>\n      <pre><code class=\"language-"
  const CommentTail: string := "</code></pre>\n    "

  /** The template literal `commentCode` returns. */
  function CommentHtml(language: string, summary: string, commentedCode: string): (r: string)
    ensures |r| == |CommentLead| + |summary| + |CommentMiddle| + |language| + 2 + |commentedCode| + |CommentTail|
    ensures r[..|CommentLead|] == CommentLead
    ensures r[|CommentLead|..|CommentLead| + |summary|] == summary
    ensures r[|CommentLead| + |summary|..|CommentLead| + |summary| + |CommentMiddle|] == CommentMiddle
    ensures var a := |CommentLead| + |summary| + |CommentMiddle|; r[a..a + |language| + 2] == language + "\">"
    ensures r[|r| - |CommentTail| - |commentedCode|..|r| - |CommentTail|] == commentedCode
    ensures r[|r| - |CommentTail|..] == CommentTail
  {
    CommentLead + summary + CommentMiddle + language + "\">" + commentedCode + CommentTail
  }

  function ProjectComment(language: string, body: Option<Body>): Result<string>
  {
    if body.None? || !Truthy(body.value.commentedCode) || !Truthy(body.value.summary) then Err(InvalidFormat)
    else Ok(CommentHtml(language, body.value.summary.value, body.value.commentedCode.value))
  }

  /** `commentCode(language, code, mode, specificity)` once the request has completed. */
  function Comment(language: string, reply: Reply): (r: Result<string>)
    ensures !reply.Decoded? ==> r == Err(Failure("add comments to code", TransportMessage(reply)))
    ensures reply.Decoded? ==>
      (r.Err? <==> reply.body.None? || !Truthy(reply.body.value.commentedCode) || !Truthy(reply.body.value.summary))
    ensures reply.Decoded? && r.Err? ==> r.message == Failure("add comments to code", InvalidFormat)
    ensures r.Ok? ==> (reply.Decoded? &&
      r.value == CommentHtml(language, reply.body.value.summary.value, reply.body.value.commentedCode.value))
  {
    Wrap("add comments to code",
      if reply.Decoded? then ProjectComment(language, reply.body) else Err(TransportMessage(reply)))
  }
}
