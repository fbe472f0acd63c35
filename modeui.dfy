/**
  The mode switch of script.js: the texts and panel flags the `modeOptions` change handler sets,
  the per-element mode classes `updateUIForMode` toggles, and the mode-specific messages of the
  execute handler. Any mode other than generator, explainer and reviewer gets the Commenter texts.
 */
module ModeUi {
  import opened Wrappers

  /** What the `modeOptions` change handler writes into the page. */
  datatype ModeTexts = ModeTexts(
    title: string,
    descriptionLabel: string,
    placeholder: string,
    buttonText: string,
    generatorOptionsHidden: bool,
    commenterOptionsHidden: bool)

  /** The word after "AI Code " in the title. */
  function TitleWord(mode: string): string
  {
    if mode == "generator" then "Generator"
    else if mode == "explainer" then "Explainer"
    else if mode == "reviewer" then "Reviewer"
    else "Commenter"
  }

  /** What the user is asked to do with pasted code, outside generator mode. */
  function CodeVerb(mode: string): string
  {
    if mode == "explainer" then "explain" else if mode == "reviewer" then "review" else "comment"
  }

  function Texts(mode: string): (t: ModeTexts)
    ensures t.generatorOptionsHidden <==> mode != "generator"
    ensures t.commenterOptionsHidden <==> mode != "commenter"
  {
    ModeTexts(
      "AI Code " + TitleWord(mode),
      if mode == "generator" then "Description of Code to Generate/Modify:"
      else "Code to " + (if mode == "explainer" then "Explain:" else if mode == "reviewer" then "Review:" else "Comment:"),
      if mode == "generator" then "Describe what you want the code to do..."
      else "Paste the code you want to " + CodeVerb(mode) + "...",
      if mode == "generator" then "Execute"
      else if mode == "explainer" then "Explain"
      else if mode == "reviewer" then "Review"
      else "Comment",
      mode != "generator",
      mode != "commenter")
  }

  predicate KnownMode(mode: string)
  {
    mode == "generator" || mode == "explainer" || mode == "reviewer" || mode == "commenter"
  }

  /** Every unrecognised mode shows the Commenter texts, but hides both option panels. */
  lemma UnknownModeFallsBack(mode: string)
    requires !KnownMode(mode)
    ensures Texts(mode) == Texts("commenter").(commenterOptionsHidden := true)
  {
  }

  /** The title names the mode: the four modes get four different titles. */
  lemma TitlesDistinct(m: string, n: string)
    requires KnownMode(m) && KnownMode(n) && Texts(m).title == Texts(n).title
    ensures m == n
  {
    var a, b := Texts(m).title, Texts(n).title;
    assert a[8..] == TitleWord(m) && b[8..] == TitleWord(n);
  }

  /** The message shown instead of a request when the input is blank. */
  function EmptyInputMessage(mode: string): (r: string)
    ensures |r| >= 15 && r[..15] == "Please provide "
  {
    "Please provide "
      + (if mode == "generator" then "a description of the code you want to generate."
         else "code to " + CodeVerb(mode) + ".")
  }

  /** What tells the messages apart: the length of the generator's, and the verb's first
      letter in the others. */
  lemma EmptyInputMessageShape(mode: string)
    ensures |EmptyInputMessage(mode)| == (if mode == "generator" then 62 else 24 + |CodeVerb(mode)|)
    ensures mode != "generator" ==> EmptyInputMessage(mode)[23] == CodeVerb(mode)[0]
  {
    if mode != "generator" {
      var tail := "code to " + CodeVerb(mode) + ".";
      assert EmptyInputMessage(mode) == "Please provide " + tail;
      assert tail[8] == CodeVerb(mode)[0];
    }
  }

  /** Each known mode asks for its own input: the four blank-input messages differ. */
  lemma EmptyInputMessagesDistinct(m: string, n: string)
    requires KnownMode(m) && KnownMode(n) && EmptyInputMessage(m) == EmptyInputMessage(n)
    ensures m == n
  {
    EmptyInputMessageShape(m);
    EmptyInputMessageShape(n);
  }

  /** The message shown while the request is in flight: an ellipsis after the activity. */
  function LoadingMessage(mode: string): (r: string)
    ensures |r| > 3 && r[|r| - 3..] == "..."
  {
    if mode == "generator" then "Generating code..."
    else if mode == "explainer" then "Analyzing code..."
    else if mode == "reviewer" then "Reviewing code..."
    else "Adding comments..."
  }

  // ---------------------------------------------------------------- updateUIForMode

  const ModeClassNames: set<string> := {"explainer-mode", "reviewer-mode", "generator-mode", "commenter-mode"}

  /** The one mode class a mode asks for, none for an unknown mode. */
  function ModeClass(mode: string): Option<string>
  {
    if mode == "explainer" then Some("explainer-mode")
    else if mode == "reviewer" then Some("reviewer-mode")
    else if mode == "generator" then Some("generator-mode")
    else if mode == "commenter" then Some("commenter-mode")
    else None
  }

  /** `classList.toggle(name, force)`: `name` is present exactly when `force` holds, and no
      other class changes. */
  function Toggle(classes: set<string>, name: string, force: bool): (r: set<string>)
    ensures name in r <==> force
    ensures forall x :: x != name ==> (x in r <==> x in classes)
  {
    if force then classes + {name} else classes - {name}
  }

  /** The four toggles `updateUIForMode` applies to one element. Afterwards the element carries
      exactly its mode's class among the four, and every other class it had is kept. */
  function ApplyModeClasses(classes: set<string>, mode: string): (r: set<string>)
    ensures r * ModeClassNames == (if ModeClass(mode).Some? then {ModeClass(mode).value} else {})
    ensures r - ModeClassNames == classes - ModeClassNames
  {
    Toggle(Toggle(Toggle(Toggle(classes,
      "explainer-mode", mode == "explainer"),
      "reviewer-mode", mode == "reviewer"),
      "generator-mode", mode == "generator"),
      "commenter-mode", mode == "commenter")
  }

  /** Only the latest mode matters: switching twice equals switching once to the second mode. */
  lemma ModeClassesLastWins(classes: set<string>, m1: string, m2: string)
    ensures ApplyModeClasses(ApplyModeClasses(classes, m1), m2) == ApplyModeClasses(classes, m2)
  {
  }

  /** Applying a mode's classes again changes nothing. This is why the `updateUIForMode` call
      inside `addCopyButton`, made with the mode already shown, leaves every class list as it is. */
  lemma ModeClassesReapplied(classes: set<string>, mode: string)
    ensures ApplyModeClasses(ApplyModeClasses(classes, mode), mode) == ApplyModeClasses(classes, mode)
  {
    ModeClassesLastWins(classes, mode, mode);
  }

  /** The title, label, placeholder, button and panels, and the class lists of the themed
      elements (body, container, subtitle, labels, selects and textareas, checkbox, mode switch,
      custom-language input, execute button, copy button, output) in that order. */
  class ModeView {
    var texts: ModeTexts
    var themed: seq<set<string>>

    constructor(texts: ModeTexts, themed: seq<set<string>>)
      ensures this.texts == texts && this.themed == themed
    {
      this.texts := texts;
      this.themed := themed;
    }

    /** `updateUIForMode(mode)`: the four toggles on every themed element, one after another. */
    method UpdateUIForMode(mode: string)
      modifies this
      ensures texts == old(texts)
      ensures |themed| == |old(themed)|
      ensures forall k :: 0 <= k < |themed| ==> themed[k] == ApplyModeClasses(old(themed)[k], mode)
    {
      var i := 0;
      while i < |themed|
        invariant 0 <= i <= |themed| == |old(themed)|
        invariant texts == old(texts)
        invariant forall k :: 0 <= k < i ==> themed[k] == ApplyModeClasses(old(themed)[k], mode)
        invariant forall k :: i <= k < |themed| ==> themed[k] == old(themed)[k]
      {
        themed := themed[i := ApplyModeClasses(themed[i], mode)];
        i := i + 1;
      }
    }

    /** The `modeOptions` change handler. */
    method OnModeChange(selectedMode: string)
      modifies this
      ensures texts == Texts(selectedMode)
      ensures |themed| == |old(themed)|
      ensures forall k :: 0 <= k < |themed| ==> themed[k] == ApplyModeClasses(old(themed)[k], selectedMode)
    {
      texts := Texts(selectedMode);
      UpdateUIForMode(selectedMode);
    }
  }
}
