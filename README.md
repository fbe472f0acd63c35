# AI code assistant front end: a Dafny model

This project models the browser side of a small AI code assistant. The page has four modes:

- **generator** writes code from a description;
- **explainer** explains pasted code;
- **reviewer** reviews pasted code and gives it a score;
- **commenter** adds comments to pasted code.

Each mode calls one client function in `codegen.js`. That function posts a prompt to a
completion endpoint, checks the shape of the JSON it gets back, turns it into a string and
re-raises every failure as `Failed to <operation>: <cause>`. `script.js` connects these calls to
the page:

- the execute button checks for blank input, shows a loading message, dispatches to the
  mode's client function and renders the result;
- for generated code it HTML-escapes the result when the language mentions `html`, and hands
  the copy button only the code, without the explanation;
- a mode switch sets the texts and toggles the mode classes on every themed element;
- a language `<select>` holds the user's custom languages. They are reloaded from
  multiplayer storage before the `custom` option, and a text field with blur and Enter handlers
  adds new ones.

The modules follow the program's structure:

| module | file | models |
|---|---|---|
| `Wrappers` | `wrappers.dfy` | `Option` and `Result` |
| `JsStrings` | `jsstrings.dfy` | `indexOf`/`includes`, `split(sep)[0]`, `trim`, `toLowerCase`, integer-to-text and `join` |
| `CodeGen` | `codegen.dfy` | what `generateCode`, `explainCode`, `reviewCode` and `commentCode` do after the request returns |
| `Rendering` | `rendering.dfy` | `escapeHtml`, the copy split, the language tag and the generator markup |
| `ModeUi` | `modeui.dfy` | the mode texts, the mode classes and the `updateUIForMode` loop over the themed elements |
| `LanguageSelect` | `languageselect.dfy` | the select as options plus a selected index; `loadCustomLanguages` with its removal and insertion loops; the change, blur and Enter handlers |
| `ExecuteHandler` | `execute.dfy` | the execute click: guard, loading text, dispatch and what the output element ends up showing |

The model has no network. The completion endpoint's answer is an input, `CodeGen.Reply`:

- `NotOk(status)` for a response that is not ok;
- `Thrown(message)` for an exception from `fetch` or from `response.json()`;
- `Decoded(body)` for a decoded body, where `None` stands for `null`.

The storage's list of custom languages is a parameter of `LoadCustomLanguages`. The name the
Enter handler hands to the storage's `create` is the handler's `saved` result.

The proofs bring out two consequences of `loadCustomLanguages` that the code does not spell
out:

- Suppose a stored language's lower-cased name is `custom` and it sits before the built-in
  `custom` option. After that load, `querySelector('option[value="custom"]')` finds the stored
  option, which the next reload removes before it calls `insertBefore` with it. That reload
  throws after clearing, and the select is left with no custom languages at all
  (`ReloadAbortsOnCustomName`).
- A selected custom language loses its selection on reload. The browser's selectedness rules
  move the selection to the first regular option (`LoadReplacesCustomSelection`). A selected regular
  language keeps it (`LoadKeepsSelection`).

## Model

| member | source | states |
|---|---|---|
| `JsStrings.IndexOf` | script.js:315-316 | the result is the leftmost position where the pattern occurs, or `None` when it occurs nowhere |
| `JsStrings.IncludesIff` | script.js:315 | `includes` holds exactly when the pattern occurs at some position |
| `JsStrings.SplitFirst` | script.js:316 | `split(sep)[0]` is a prefix of the text; it is the whole text when the separator is absent, and otherwise ends where the first occurrence starts |
| `JsStrings.IncludesTransitive` | script.js:319-323 | a text containing `html_css_javascript` contains `html` (occurrence is transitive) |
| `JsStrings.Trim` | script.js:186 | `trim()` returns a slice of the input with only white space and line terminators before and after it, and a non-empty result neither starts nor ends with one |
| `JsStrings.TrimEmptyIff` | script.js:270 | `trim()` is empty exactly when every character is white space or a line terminator |
| `JsStrings.LowerChars` | script.js:204 | `toLowerCase()` maps each character by itself and keeps the length |
| `JsStrings.LowerIdempotent` | script.js:204 | lower-casing twice equals lower-casing once |
| `JsStrings.ParseNatToString` | codegen.js:51 | the decimal text of a number reads back as that number |
| `JsStrings.NatToStringInjective` | codegen.js:63 | different numbers get different decimal texts |
| `JsStrings.JoinSnoc` | codegen.js:64 | `join(sep)` with one more part adds the separator and then that part |
| `CodeGen.Wrap` | codegen.js:75-78 | the `catch` passes a value through unchanged and turns an error into `Failed to <operation>: <cause>` |
| `CodeGen.TransportMessage` | codegen.js:50-51 | a thrown error keeps its message; a non-ok response gives `HTTP error! Status: ` followed by decimal digits that read back as the status |
| `CodeGen.Solutions` | codegen.js:62-63 | the `i`-th entry of the map is `// Solution <i+1>:` on its own line, followed by the `i`-th implementation |
| `CodeGen.CodeOrEmpty` | codegen.js:67 | `data.code \|\| ''` is the code when it is truthy and the empty string otherwise |
| `CodeGen.Generate` | codegen.js:50-78 | a non-ok status or a thrown error gives `Failed to generate code: <cause>`; the body is rejected exactly when it is null or has neither `code` nor `codes`; in multiple mode an array of `codes` gives the joined solutions; otherwise the result is the code, with the explanation block appended exactly when it is requested and present |
| `CodeGen.EmptyCodesAccepted` | codegen.js:56-65 | an empty `codes` array passes the shape check, and in multiple mode it gives the empty string |
| `CodeGen.MultipleIgnoresExplanation` | codegen.js:61-65 | in multiple mode with a `codes` array, neither the checkbox nor the `explanation` field affects the result |
| `CodeGen.JoinSolutionsSnoc` | codegen.js:62-64 | one more implementation appends a blank line, the next label and that implementation |
| `CodeGen.JoinSolutionsStart` | codegen.js:62-64 | the joined text begins with `// Solution 1:` and the first implementation |
| `CodeGen.LabelsDistinct` | codegen.js:63 | equal solution labels have equal numbers |
| `CodeGen.ThreeSolutions` | codegen.js:61-65 | three implementations give exactly the three labelled blocks separated by blank lines |
| `CodeGen.GenerateCodeUnchanged` | codegen.js:67-74 | without a requested, truthy explanation the code comes back exactly |
| `CodeGen.GenerateAppendsExplanation` | codegen.js:67-74 | with a requested, truthy explanation the code is followed by exactly `\n\n/*\nExplanation:\n`, the explanation and `\n*/` |
| `CodeGen.Explain` | codegen.js:143-157 | transport failures carry the `Failed to explain code:` prefix; the body is rejected exactly when it is null or has no truthy `explanation`; otherwise the result is that explanation |
| `CodeGen.ScoreClass` | codegen.js:228 | the score band is `high` exactly when the score is at least 7, `medium` exactly when it is in [4, 7), and `low` exactly when it is below 4 |
| `CodeGen.ScoreClassMonotone` | codegen.js:228 | a higher score never gets a lower band |
| `CodeGen.FindClose` | codegen.js:230 | the lazy `.*?'>` ends at the first `'>` that has no line terminator before it, and there is none when no such `'>` exists |
| `CodeGen.FindMarker` | codegen.js:229-232 | the regular expression's match is at the leftmost start, and the shortest match from that start; no match means none exists |
| `CodeGen.ReplaceScoreMarker` | codegen.js:229-232 | with no match the review is unchanged; otherwise the first match, and only that one, is replaced by `<div class='score <band>'>` |
| `CodeGen.FirstMarkerExists` | codegen.js:229-232 | if the pattern matches anywhere, there is a first match |
| `CodeGen.Review` | codegen.js:218-238 | transport failures carry the `Failed to review code:` prefix; the body is rejected exactly when it is null, has no truthy `review` or has no numeric `score`; otherwise the result is the review with its first score marker rewritten |
| `CodeGen.ReviewRewritesLeadingMarker` | codegen.js:228-234 | a review that starts with `<div class='score'>` gets its score's band there, and the rest of the text is kept |
| `CodeGen.CommentHtml` | codegen.js:319-323 | the template literal holds, in order, the summary, the `Commented Code` heading, the code block whose class ends with the language followed by `">`, and the commented code |
| `CodeGen.Comment` | codegen.js:309-327 | transport failures carry the `Failed to add comments to code:` prefix; the body is rejected exactly when `commentedCode` or `summary` is falsy; otherwise the result is the HTML template |
| `Rendering.ReplaceAll` | script.js:137-141 | a global replace changes nothing when the character is absent, and leaves the character absent when the replacement lacks it |
| `Rendering.ReplaceAllAppend` | script.js:137-141 | a global replace distributes over concatenation |
| `Rendering.EscapeHtmlChar` | script.js:135-142 | on one character, the chain of five replaces gives the entity for `& < > " '` and leaves every other character alone |
| `Rendering.EscapeHtml` | script.js:135-142 | the result never contains a raw `<`, `>`, `"` or `'` |
| `Rendering.EscapeHtmlAppend` | script.js:135-142 | `escapeHtml` distributes over concatenation |
| `Rendering.EscapeHtmlIsPerChar` | script.js:135-142 | because `&` is replaced first, the chain equals escaping each character once (no double escaping) |
| `Rendering.EscapeHtmlPlain` | script.js:135-142 | text without the five special characters comes back unchanged |
| `Rendering.UnescapeEscapeHtml` | script.js:135-142 | decoding the five entities recovers the original text, so escaping loses nothing |
| `Rendering.CopyContent` | script.js:313-317 | the copy text is a prefix of the result; it is the whole result when the checkbox is off or the marker is absent; with the checkbox on it never contains the marker, and when the marker is present the copy ends exactly where its first occurrence starts |
| `Rendering.CopyInvertsExplanation` | script.js:313-317 | copying a result built with an explanation gives back exactly the code, provided the code does not itself contain the marker |
| `Rendering.CopyPlainCode` | script.js:313-317 | a result without the marker is copied whole |
| `Rendering.LanguageTag` | script.js:319-321 | a language containing `html_css_javascript` becomes `html`, and any other language is kept unchanged; the result mentions `html` exactly when the language does |
| `Rendering.RenderGenerated` | script.js:319-329 | the output is the code block tagged with the adjusted language, HTML-escaped exactly when the selected language mentions `html` |
| `ModeUi.Texts` | script.js:97-127 | the generator panel is hidden exactly outside generator mode, and the commenter panel exactly outside commenter mode |
| `ModeUi.UnknownModeFallsBack` | script.js:97-127 | an unknown mode gets the Commenter title, label, placeholder and button, with both panels hidden |
| `ModeUi.TitlesDistinct` | script.js:97-102 | the four modes get four different titles |
| `ModeUi.EmptyInputMessage` | script.js:270-278 | the blank-input message always starts with `Please provide ` |
| `ModeUi.EmptyInputMessagesDistinct` | script.js:270-278 | the four modes get four different blank-input messages |
| `ModeUi.LoadingMessage` | script.js:281-288 | every loading text ends with `...` |
| `ModeUi.Toggle` | script.js:39-92 | `classList.toggle(name, force)` leaves the class present exactly when `force` holds, and every other class as it was |
| `ModeUi.ApplyModeClasses` | script.js:33-93 | after the four toggles an element carries exactly its mode's class among the four mode classes (none for an unknown mode), and keeps every other class |
| `ModeUi.ModeClassesReapplied` | script.js:262 | re-running `updateUIForMode` with the mode already applied leaves the class list unchanged |
| `ModeUi.ModeClassesLastWins` | script.js:33-93 | switching modes twice equals switching once to the second mode |
| `ModeUi.ModeView.UpdateUIForMode` | script.js:33-93 | every themed element gets the four toggles for the mode; the texts and the number of elements stay the same |
| `ModeUi.ModeView.OnModeChange` | script.js:95-130 | the page texts become the mode's texts and every themed element gets that mode's classes |
| `LanguageSelect.FirstWithValue` | script.js:151 | the selector finds the first option with the given value, or none when no option has it |
| `LanguageSelect.FirstWithValueAt` | script.js:151 | an option with the value and no earlier option with it is the one found |
| `LanguageSelect.AnchorIndex` | script.js:162 | `insertBefore` inserts at the first `custom` option, or at the end when there is none |
| `LanguageSelect.SelectByValueValue` | script.js:190 | after `select.value = v` the select reads `v` when some option has that value and `""` otherwise, and the selected index stays in range |
| `LanguageSelect.SelectByValue` | script.js:190 | assigning `select.value` keeps the options and the index in range; it selects the first option carrying the value, and selects none only when no option carries it |
| `LanguageSelect.RemoveOption` | script.js:156 | `option.remove()` keeps the other options in order and keeps another selected option selected; removing the selected option, or any option when none was selected, selects the first remaining option, or none when the list becomes empty |
| `LanguageSelect.InsertOption` | script.js:162 | `insertBefore` puts the option at the reference position and keeps the selected option selected; an unselected list selects its first option |
| `LanguageSelect.CustomOptions` | script.js:159-163 | each stored name becomes a custom option with the name as text and the lower-cased name as value |
| `LanguageSelect.LoadResult` | script.js:145-164 | a load leaves the regular options plus, unless `insertBefore` throws, one option per stored language |
| `LanguageSelect.NonCustomAppend` | script.js:154-156 | the regular part of two lists joined is the two regular parts joined |
| `LanguageSelect.CustomsAppend` | script.js:154-156 | the custom part of two lists joined is the two custom parts joined |
| `LanguageSelect.FiltersOfCustomOptions` | script.js:159-163 | the options made from stored names are all custom |
| `LanguageSelect.NonCustomAt` | script.js:154-156 | removing the custom options moves a regular option to the position given by the number of regular options before it |
| `LanguageSelect.AnchorAfterClearing` | script.js:151-162 | the reference option found before the removals is still the first `custom` option after them |
| `LanguageSelect.InsertedRegular` | script.js:159-163 | inserting the stored names adds, drops and reorders no regular option |
| `LanguageSelect.InsertedCustoms` | script.js:159-163 | after inserting the stored names into a list without custom options, its custom options are exactly the stored names, in stored order |
| `LanguageSelect.LoadInsertsStored` | script.js:145-164 | after a load the custom options are exactly the stored languages, in stored order, or none when `insertBefore` throws |
| `LanguageSelect.LoadKeepsNonCustom` | script.js:145-164 | a load never adds, drops or reorders a regular option |
| `LanguageSelect.LoadPlacesBeforeAnchor` | script.js:151-163 | with a regular `custom` option, the stored languages come in order directly before it, after the regular options that preceded it |
| `LanguageSelect.LoadAppendsWithoutAnchor` | script.js:151-163 | with no `custom` option, the stored languages are appended after the regular options |
| `LanguageSelect.LoadKeepsSelection` | script.js:145-164 | a load keeps a selected regular option selected, and `select.value` with it |
| `LanguageSelect.LoadReplacesCustomSelection` | script.js:154-156 | a load moves the selection from a selected custom option to the first regular option |
| `LanguageSelect.LoadWellFormed` | script.js:145-164 | after a load the selected index is still in range |
| `LanguageSelect.LoadedCustomValuesAreRegular` | script.js:151-163 | when no stored name lower-cases to `custom`, every `custom`-valued option after a completed load is a regular one |
| `LanguageSelect.LoadTwice` | script.js:170-172 | under that condition, reloading with the same stored list (as the storage subscription does) gives the same options again, though the selection may move |
| `LanguageSelect.ReloadAbortsOnCustomName` | script.js:151-172 | a stored name that lower-cases to `custom` makes the next reload throw and leave no custom languages |
| `LanguageSelect.TextTakenIgnoresCase` | script.js:203-205 | whether a name is taken does not depend on its letter case, since both sides are lower-cased before comparing |
| `LanguageSelect.AddCustom` | script.js:203-218 | a taken name changes nothing; a new name is inserted at the reference position; the index stays in range; afterwards the name is taken |
| `LanguageSelect.AddCustomKeepsTextsDistinct` | script.js:203-218 | Enter never creates a second option with the same text, ignoring case |
| `LanguageSelect.AddCustomPlacement` | script.js:207-218 | a new name adds exactly one custom option, directly before the `custom` option; removing it gives back the previous list |
| `LanguageSelect.EnterSelectsName` | script.js:214-221 | after Enter the select reads the lower-cased name whenever an option was added for it; for an existing name it reads that value only when some option carries it |
| `LanguageSelect.RemoveCustomOptions` | script.js:154-156 | the removal loop over a snapshot of the options ends with the regular options in order, with the selection the browser computes |
| `LanguageSelect.InsertBeforeAnchor` | script.js:159-163 | the insertion loop puts the stored names, in order, at the reference position |
| `LanguageSelect.LanguagePicker.constructor` | script.js:132-133 | `lastSelectedLanguage` starts as the select's value, and `lastCustomInput` starts empty |
| `LanguageSelect.LanguagePicker.LoadCustomLanguages` | script.js:145-164 | the load completes exactly when `insertBefore` does not throw; the select becomes the load's result and stays well formed; the handler variables and the field are unchanged |
| `LanguageSelect.LanguagePicker.OnSelectChange` | script.js:174-183 | picking `custom` shows the field and refills it with the last custom input; picking anything else hides the field and remembers the value; the selected index stays in range |
| `LanguageSelect.LanguagePicker.OnBlur` | script.js:185-193 | the trimmed text is remembered; when it is empty the select goes back to the remembered language and the field is hidden; otherwise nothing else changes; the selected index stays in range |
| `LanguageSelect.LanguagePicker.AddAndSelect` | script.js:201-225 | for a non-blank name: the name is saved exactly when no option shows it (ignoring case), the option is added then, the select moves to the lower-cased name, which is remembered, and the field is hidden and cleared; the selected index stays in range |
| `LanguageSelect.LanguagePicker.OnEnter` | script.js:195-227 | blank input changes nothing but the remembered input; otherwise a name no option has (ignoring case) is saved and inserted as a custom option, the lower-cased name is selected and remembered, and the field is hidden and cleared; the selected index stays in range |
| `ExecuteHandler.Dispatch` | script.js:290-311 | no client function is called exactly when the mode is none of the four |
| `ExecuteHandler.ErrorText` | script.js:337 | the text shown for an error is never empty, and it is the message whenever the message is non-empty |
| `ExecuteHandler.OnExecute` | script.js:265-342 | the click is refused exactly when the description is blank, with the mode's message; otherwise the loading text is the mode's. An unknown mode shows `undefined`; a failure shows its error text; generator mode shows the rendered code and hands over the copy text; the other modes show the result as HTML. Only generator mode yields copy text |
| `ExecuteHandler.DispatchErrorsPrefixed` | codegen.js:77 | every failure of a dispatched client call has a message starting with `Failed to ` |
| `ExecuteHandler.FailuresShowPrefixedMessage` | script.js:336-337 | every error reaching the page shows its prefixed message, so the fallback text is never shown |
| `ExecuteHandler.FailureHasNoCopy` | script.js:290-337 | a failed client call (a transport failure or a rejected shape) leaves only the error text: no rendered code and no copy text |
| `ExecuteHandler.GeneratedCopyIsCode` | script.js:313-332 | generated code with a requested explanation hands the copy button exactly the code |

## Left out

- The HTTP request, the prompt texts and the `data` it echoes are not modelled. The endpoint's
  answer is the `Reply` input, so its status, a thrown error and the decoded body are all
  covered.
- The JSON decoding is not modelled. A field that is missing or not a string is `None`, and a
  `codes` value that is truthy but not an array is `OtherCodes`.
- The `score` is a `real`. NaN and the infinities are not modelled; with NaN every comparison
  is false and the band would be `low`.
- The multiplayer storage calls `getList`, `create` and `subscribe` are not modelled. The stored
  list is a parameter and `saved` is the name passed to `create`. The subscription callback is
  modelled as a repeated load (`LoadTwice`).
- Concurrency is not modelled: overlapping clicks, a load racing an Enter, and the checkbox
  being read again after the request. Each handler runs to completion on the state it finds.
- The execute handler's `loading` class and its `finally` are not modelled, nor are `focus()`
  and `console.error`.
- `hljs.highlightAll()` and `addCopyButton` are not modelled. The outcome's `shown` field is the
  markup the handler assigns (script.js:329, 334, 337), before `hljs.highlightAll()` rewrites
  the code block and `addCopyButton` appends its button (script.js:261). The copy text handed
  to `addCopyButton` is the outcome's `copy` field; the clipboard and `setTimeout` are not modelled.
  The `updateUIForMode(modeOptions.value)` call inside `addCopyButton` (script.js:262) runs with
  the mode already shown, and `ModeClassesReapplied` proves that it leaves every class list
  unchanged.
- `OnEnter` assumes that `room.collection('custom_language').create(...)` (script.js:209)
  resolves. If it rejects, the handler stops after setting `lastCustomInput`: no option is
  added, and the selection, the hidden flag and the field stay as they were.
- JavaScript strings are UTF-16 code units, while a Dafny `char` is a Unicode scalar value, so
  lone surrogates are not representable and positions count differently. Every pattern the
  model searches for is ASCII, so `includes` and `split(...)[0]` give the same answers.
- The Ctrl+Enter keydown shortcut is not modelled; it only clicks the execute button.
- `LowerChar`: lower-cases only `A`-`Z`; the locale and Unicode case mappings of
  `toLowerCase` are out of scope.
- `RemoveOption`: follows the selectedness rules of a single-selection select with a display
  size of 1 and no disabled options. Multiple selects and disabled options are not modelled.
- The page markup and the initial `updateUIForMode(modeOptions.value)` at load time are not
  modelled. The initial select, the field and the themed class lists are constructor
  parameters.
- `ModeUi.ModeView.UpdateUIForMode`: the optional elements (checkbox, custom-language input,
  copy button) are assumed present; a missing one is simply not in the `themed` list.
- Field types are not modelled beyond the decoding abstraction. A field that is present but is
  not a string is `None`. The code instead stringifies such a value in a template, returns it,
  or throws a `TypeError` with no `Failed to` prefix: at `result.includes` (script.js:315) for a
  non-string generator result, or in `replace` (script.js:137) when it is escaped. So
  `FailuresShowPrefixedMessage` holds only under that abstraction.
- `option[value="custom"]` matches the option's `value` attribute. The model compares the
  value the option was created with, which is the same for every option the code creates.
- `option.text` strips and collapses white space. The model compares the text as given. The
  names are trimmed, so the two differ only for a name with a run of inner white space.
- `LoadTwice`: states only that the options come back the same. The selection can move on the
  second load, because a selected custom option is replaced and the selection passes to the
  first regular option.
