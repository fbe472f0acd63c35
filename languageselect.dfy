/**
  The language `<select>` of script.js and the handlers around it: `loadCustomLanguages`, which
  removes the user's custom options and inserts the stored ones just before the `custom` option,
  and the handlers for a change of the select and for blur and Enter in the custom-language field.

  The select is its ordered list of options and the index of the selected one (a single-selection
  select has at most one). The selection follows the DOM: the user's pick selects one option,
  assigning `select.value` selects the first option with that value (or none), an insertion or a
  removal moves the selection along with its option, and after each of them the
  selectedness-setting algorithm selects the first option when none is selected. Reading
  `select.value` gives the selected option's value, or "" when none is selected.
 */
module LanguageSelect {
  import opened Wrappers
  import opened JsStrings

  /** One `<option>`: its text, its value, and whether `dataset.isCustom` is 'true'. */
  datatype LangOption = LangOption(text: string, value: string, isCustom: bool)

  /** The `<select>` element: its options in order and the index of the selected one. */
  datatype SelectBox = SelectBox(options: seq<LangOption>, selected: Option<nat>)

  /** The value of the option that opens the custom-language field. */
  const CustomValue: string := "custom"

  /** The selected index, if any, names an option. */
  predicate WellFormed(b: SelectBox)
  {
    b.selected.Some? ==> b.selected.value < |b.options|
  }

  /** `select.value`. */
  function SelectedValue(b: SelectBox): string
  {
    if b.selected.Some? && b.selected.value < |b.options| then b.options[b.selected.value].value else ""
  }

  // ---------------------------------------------------------------- finding and selecting

  /** The index of the first option with value `v`: what `option[value="v"]` finds. */
  function FirstWithValue(opts: seq<LangOption>, v: string): (r: Option<nat>)
    ensures r.Some? ==> r.value < |opts| && opts[r.value].value == v
    ensures r.Some? ==> forall k :: 0 <= k < r.value ==> opts[k].value != v
    ensures r.None? ==> forall k :: 0 <= k < |opts| ==> opts[k].value != v
  {
    if opts == [] then None
    else if opts[0].value == v then Some(0)
    else
      match FirstWithValue(opts[1..], v)
      case None =>
        assert forall k :: 1 <= k < |opts| ==> opts[k] == opts[1..][k - 1];
        None
      case Some(k) => Some(k + 1)
  }

  /** The first option with value `v` is the one at `i` when no earlier option has that value. */
  lemma FirstWithValueAt(opts: seq<LangOption>, v: string, i: nat)
    requires i < |opts| && opts[i].value == v
    requires forall k :: 0 <= k < i ==> opts[k].value != v
    ensures FirstWithValue(opts, v) == Some(i)
  {
  }

  /** Where `insertBefore(option, customOption)` puts an option: at the `custom` option, or at
      the end when there is none (a `null` reference node appends). */
  function AnchorIndex(opts: seq<LangOption>): (a: nat)
    ensures a <= |opts|
    ensures a < |opts| ==> opts[a].value == CustomValue
    ensures forall k :: 0 <= k < a ==> opts[k].value != CustomValue
  {
    match FirstWithValue(opts, CustomValue)
    case None => |opts|
    case Some(k) => k
  }

  /** The user picks option `i`. */
  function SelectIndex(b: SelectBox, i: nat): SelectBox
    requires i < |b.options|
  {
    b.(selected := Some(i))
  }

  /** `select.value = v`: the first option with value `v` is selected, or none when there is no
      such option. */
  function SelectByValue(b: SelectBox, v: string): (r: SelectBox)
    ensures r.options == b.options && WellFormed(r)
    ensures r.selected.Some? ==> b.options[r.selected.value].value == v
    ensures r.selected.Some? ==> forall k :: 0 <= k < r.selected.value ==> b.options[k].value != v
    ensures r.selected.None? ==> forall k :: 0 <= k < |b.options| ==> b.options[k].value != v
  {
    b.(selected := FirstWithValue(b.options, v))
  }

  /** After `select.value = v` the select reads `v` when some option has that value, and ""
      when none has. */
  lemma SelectByValueValue(b: SelectBox, v: string)
    ensures WellFormed(SelectByValue(b, v))
    ensures (exists k :: 0 <= k < |b.options| && b.options[k].value == v) ==> SelectedValue(SelectByValue(b, v)) == v
    ensures (forall k :: 0 <= k < |b.options| ==> b.options[k].value != v) ==> SelectedValue(SelectByValue(b, v)) == ""
  {
  }

  // ---------------------------------------------------------------- inserting and removing

  function InsertSeq(opts: seq<LangOption>, k: nat, o: LangOption): (r: seq<LangOption>)
    requires k <= |opts|
    ensures |r| == |opts| + 1 && r[k] == o
    ensures forall j :: 0 <= j < k ==> r[j] == opts[j]
    ensures forall j :: k <= j < |opts| ==> r[j + 1] == opts[j]
  {
    opts[..k] + [o] + opts[k..]
  }

  function RemoveSeq(opts: seq<LangOption>, k: nat): (r: seq<LangOption>)
    requires k < |opts|
    ensures |r| == |opts| - 1
    ensures forall j :: 0 <= j < k ==> r[j] == opts[j]
    ensures forall j :: k < j < |opts| ==> r[j - 1] == opts[j]
  {
    opts[..k] + opts[k + 1..]
  }

  /** The selection after the option at `i` of `len` options is removed: later options move up
      a place, removing the selected option leaves none selected, and then the selectedness-setting
      algorithm selects the first option if none is selected and any is left. */
  function RemovedSelection(sel: Option<nat>, i: nat, len: nat): Option<nat>
  {
    var moved :=
      match sel
      case None => None
      case Some(j) => if j == i then None else if j > i then Some(j - 1) else Some(j);
    if moved.None? && len > 1 then Some(0) else moved
  }

  /** The selection after an option is inserted at `i`: later options move down a place, and then
      the selectedness-setting algorithm selects the first option if none is selected. */
  function InsertedOneSelection(sel: Option<nat>, i: nat): Option<nat>
  {
    match sel
    case None => Some(0)
    case Some(j) => if j >= i then Some(j + 1) else Some(j)
  }

  /** `option.remove()` on the option at `i`. Removing another option keeps the same option
      selected; when the removed option was selected, or none was, the first remaining option
      becomes selected. */
  function RemoveOption(b: SelectBox, i: nat): (r: SelectBox)
    requires i < |b.options|
    ensures WellFormed(b) ==> WellFormed(r)
    ensures r.options == RemoveSeq(b.options, i)
    ensures WellFormed(b) && b.selected.Some? && b.selected.value != i ==>
      r.selected.Some? && r.options[r.selected.value] == b.options[b.selected.value]
    ensures b.selected == Some(i) ==> r.selected == (if |b.options| == 1 then None else Some(0))
    ensures b.selected.None? ==> r.selected == (if |b.options| == 1 then None else Some(0))
  {
    SelectBox(RemoveSeq(b.options, i), RemovedSelection(b.selected, i, |b.options|))
  }

  /** `select.insertBefore(o, ref)` with the reference option at `i` (`i == |options|` for a
      `null` reference). The selected option stays selected; with none selected, the first option
      becomes selected. */
  function InsertOption(b: SelectBox, i: nat, o: LangOption): (r: SelectBox)
    requires i <= |b.options|
    ensures WellFormed(b) ==> WellFormed(r)
    ensures r.options == InsertSeq(b.options, i, o)
    ensures WellFormed(b) && b.selected.Some? ==>
      r.selected.Some? && r.options[r.selected.value] == b.options[b.selected.value]
    ensures b.selected.None? ==> r.selected == Some(0)
  {
    SelectBox(InsertSeq(b.options, i, o), InsertedOneSelection(b.selected, i))
  }

  /** `new Option(name, name.toLowerCase())` flagged as custom. */
  function CustomOption(name: string): LangOption
  {
    LangOption(name, Lower(name), true)
  }

  function CustomOptions(names: seq<string>): (r: seq<LangOption>)
    ensures |r| == |names|
    ensures forall k :: 0 <= k < |names| ==> r[k] == CustomOption(names[k])
  {
    seq(|names|, k requires 0 <= k < |names| => CustomOption(names[k]))
  }

  // ---------------------------------------------------------------- custom and regular options

  predicate HasCustom(opts: seq<LangOption>)
  {
    exists k :: 0 <= k < |opts| && opts[k].isCustom
  }

  /** The options not flagged as custom, in order. */
  function NonCustom(opts: seq<LangOption>): (r: seq<LangOption>)
    ensures |r| <= |opts|
    ensures forall k :: 0 <= k < |r| ==> !r[k].isCustom
  {
    if opts == [] then []
    else if opts[0].isCustom then NonCustom(opts[1..])
    else [opts[0]] + NonCustom(opts[1..])
  }

  /** The options flagged as custom, in order. */
  function Customs(opts: seq<LangOption>): (r: seq<LangOption>)
    ensures forall k :: 0 <= k < |r| ==> r[k].isCustom
  {
    if opts == [] then []
    else if opts[0].isCustom then [opts[0]] + Customs(opts[1..])
    else Customs(opts[1..])
  }

  lemma {:induction false} NonCustomAppend(a: seq<LangOption>, b: seq<LangOption>)
    ensures NonCustom(a + b) == NonCustom(a) + NonCustom(b)
    decreases |a|
  {
    if a == [] {
      assert a + b == b;
    } else {
      assert (a + b)[0] == a[0] && (a + b)[1..] == a[1..] + b;
      NonCustomAppend(a[1..], b);
    }
  }

  lemma {:induction false} CustomsAppend(a: seq<LangOption>, b: seq<LangOption>)
    ensures Customs(a + b) == Customs(a) + Customs(b)
    decreases |a|
  {
    if a == [] {
      assert a + b == b;
    } else {
      assert (a + b)[0] == a[0] && (a + b)[1..] == a[1..] + b;
      CustomsAppend(a[1..], b);
    }
  }

  /** A list of regular options is its own regular part and has no custom part. */
  lemma {:induction false} FiltersOfPlain(opts: seq<LangOption>)
    requires forall k :: 0 <= k < |opts| ==> !opts[k].isCustom
    ensures Customs(opts) == []
    ensures NonCustom(opts) == opts
    decreases |opts|
  {
    if opts != [] {
      assert forall k :: 0 <= k < |opts[1..]| ==> opts[1..][k] == opts[k + 1];
      FiltersOfPlain(opts[1..]);
      assert opts == [opts[0]] + opts[1..];
    }
  }

  /** Stored languages are all custom part. */
  lemma {:induction false} FiltersOfCustomOptions(names: seq<string>)
    ensures Customs(CustomOptions(names)) == CustomOptions(names)
    ensures NonCustom(CustomOptions(names)) == []
    decreases |names|
  {
    if names != [] {
      var c := CustomOptions(names);
      assert c[1..] == CustomOptions(names[1..]);
      FiltersOfCustomOptions(names[1..]);
      assert c == [c[0]] + c[1..];
    }
  }

  /** Filtering only drops options: a value no option has is not in the regular part. */
  lemma {:induction false} NonCustomValues(opts: seq<LangOption>, v: string)
    requires forall k :: 0 <= k < |opts| ==> opts[k].value != v
    ensures forall k :: 0 <= k < |NonCustom(opts)| ==> NonCustom(opts)[k].value != v
    decreases |opts|
  {
    if opts != [] {
      assert forall k :: 0 <= k < |opts[1..]| ==> opts[1..][k] == opts[k + 1];
      NonCustomValues(opts[1..], v);
    }
  }

  /** One more option extends the regular part by that option, unless it is custom. */
  lemma NonCustomStep(opts: seq<LangOption>, c: nat)
    requires c < |opts|
    ensures NonCustom(opts[..c + 1]) == NonCustom(opts[..c]) + (if opts[c].isCustom then [] else [opts[c]])
  {
    assert opts[..c + 1] == opts[..c] + [opts[c]];
    NonCustomAppend(opts[..c], [opts[c]]);
    assert NonCustom([opts[c]]) == (if opts[c].isCustom then [] else [opts[c]]);
  }

  /** The same, and one more option adds a custom option exactly when it is one. */
  lemma NonCustomSnoc(opts: seq<LangOption>, c: nat)
    requires c < |opts|
    ensures NonCustom(opts[..c + 1]) == NonCustom(opts[..c]) + (if opts[c].isCustom then [] else [opts[c]])
    ensures HasCustom(opts[..c + 1]) <==> HasCustom(opts[..c]) || opts[c].isCustom
  {
    NonCustomStep(opts, c);
    if HasCustom(opts[..c + 1]) && !opts[c].isCustom {
      var m :| 0 <= m < c + 1 && opts[..c + 1][m].isCustom;
      assert opts[..c][m].isCustom;
    }
    if HasCustom(opts[..c]) {
      var m :| 0 <= m < c && opts[..c][m].isCustom;
      assert opts[..c + 1][m].isCustom;
    }
    if opts[c].isCustom {
      assert opts[..c + 1][c].isCustom;
    }
  }

  /** A regular option before `c` leaves fewer regular options before it than before `c`. */
  lemma NonCustomBefore(opts: seq<LangOption>, j: nat, c: nat)
    requires j < c <= |opts| && !opts[j].isCustom
    ensures |NonCustom(opts[..j])| < |NonCustom(opts[..c])|
  {
    NonCustomSnoc(opts, j);
    assert opts[..c] == opts[..j + 1] + opts[j + 1..c];
    NonCustomAppend(opts[..j + 1], opts[j + 1..c]);
  }

  /** Without a custom option among the first `c`, every prefix up to `c` is all regular. */
  lemma PlainPrefix(opts: seq<LangOption>, c: nat, j: nat)
    requires j <= c <= |opts| && !HasCustom(opts[..c])
    ensures |NonCustom(opts[..j])| == j
    ensures j < c ==> !opts[j].isCustom
  {
    assert forall k :: 0 <= k < j ==> opts[..j][k] == opts[..c][k];
    FiltersOfPlain(opts[..j]);
    if j < c {
      assert opts[..c][j] == opts[j];
    }
  }

  /** A regular option at `j` is, in the regular part, at the number of regular options before
      it. */
  lemma NonCustomAt(opts: seq<LangOption>, j: nat)
    requires j < |opts| && !opts[j].isCustom
    ensures |NonCustom(opts[..j])| < |NonCustom(opts)|
    ensures NonCustom(opts)[|NonCustom(opts[..j])|] == opts[j]
    ensures forall k :: 0 <= k < |NonCustom(opts[..j])| ==> NonCustom(opts)[k] == NonCustom(opts[..j])[k]
  {
    var t := [opts[j]] + opts[j + 1..];
    assert opts == opts[..j] + t;
    NonCustomAppend(opts[..j], t);
    assert t[0] == opts[j] && t[1..] == opts[j + 1..];
    assert NonCustom(t) == [opts[j]] + NonCustom(opts[j + 1..]);
  }

  // ---------------------------------------------------------------- loadCustomLanguages

  /** The selection once the custom options among the first `c` options of `opts` have been
      removed one at a time: with none removed it is unchanged; otherwise a selected option that
      is still present stays selected, and when it was removed (or none was selected) the first
      option is, unless no option is left. */
  function ClearedSelection(opts: seq<LangOption>, sel: Option<nat>, c: nat): Option<nat>
    requires c <= |opts|
  {
    var n := |NonCustom(opts[..c])|;
    if !HasCustom(opts[..c]) then sel
    else if sel.Some? && sel.value < |opts| && (c <= sel.value || !opts[sel.value].isCustom) then
      Some(if sel.value < c then |NonCustom(opts[..sel.value])| else n + (sel.value - c))
    else if n + (|opts| - c) == 0 then None
    else Some(0)
  }

  /** The select part-way through the removal loop, once the first `c` options of the snapshot
      `b.options` have been visited. */
  function PartlyCleared(b: SelectBox, c: nat): SelectBox
    requires c <= |b.options|
  {
    SelectBox(NonCustom(b.options[..c]) + b.options[c..], ClearedSelection(b.options, b.selected, c))
  }

  /** The select after the removal loop: the regular options in their order, with the selection
      of `ClearedSelection`. */
  function Cleared(b: SelectBox): SelectBox
  {
    SelectBox(NonCustom(b.options), ClearedSelection(b.options, b.selected, |b.options|))
  }

  /** `insertBefore` throws when the `custom` option it is handed was itself flagged as custom and
      so has just been removed; the insertions then stop at the first stored language. With no
      `custom` option the reference node is `null` and the options are appended. */
  predicate LoadAborts(opts: seq<LangOption>, stored: seq<string>)
  {
    var f := FirstWithValue(opts, CustomValue);
    stored != [] && f.Some? && opts[f.value].isCustom
  }

  /** The selection after `count` options have been inserted one after another starting at
      `a`: the selected option moves down past them when it is at or after `a`; with none selected
      the first option is selected by the first insertion. */
  function InsertedSelection(sel: Option<nat>, a: nat, count: nat): Option<nat>
  {
    if count == 0 then sel
    else
      match sel
      case None => Some(0)
      case Some(j) => Some(if j >= a then j + count else j)
  }

  /** The select after the stored `names` have been inserted in order at `a`. */
  function InsertedAt(k: SelectBox, a: nat, names: seq<string>): SelectBox
    requires a <= |k.options|
  {
    SelectBox(k.options[..a] + CustomOptions(names) + k.options[a..], InsertedSelection(k.selected, a, |names|))
  }

  /** The select after `loadCustomLanguages` with the list `stored`. */
  function LoadResult(b: SelectBox, stored: seq<string>): (r: SelectBox)
    ensures |r.options| == |NonCustom(b.options)| + (if LoadAborts(b.options, stored) then 0 else |stored|)
  {
    var k := Cleared(b);
    if LoadAborts(b.options, stored) then k else InsertedAt(k, AnchorIndex(k.options), stored)
  }

  lemma ClearDone(b: SelectBox)
    ensures PartlyCleared(b, 0) == b
    ensures PartlyCleared(b, |b.options|) == Cleared(b)
  {
    assert b.options[..0] == [] && [] + b.options[0..] == b.options;
    assert !HasCustom(b.options[..0]);
    assert b.options[..|b.options|] == b.options;
    assert NonCustom(b.options) + b.options[|b.options|..] == NonCustom(b.options);
  }

  /** Taking out the option between `x` and `y` leaves `x + y`. */
  lemma RemoveBetween(x: seq<LangOption>, e: LangOption, y: seq<LangOption>)
    ensures RemoveSeq(x + [e] + y, |x|) == x + y
  {
    var l := x + [e] + y;
    assert l[..|x|] == x && l[|x| + 1..] == y;
  }

  /** The option list of one step of the removal loop, on the snapshot alone. */
  lemma ClearStepSeq(opts: seq<LangOption>, c: nat)
    requires c < |opts|
    ensures var nc := NonCustom(opts[..c]);
      && (opts[c].isCustom ==> NonCustom(opts[..c + 1]) + opts[c + 1..] == RemoveSeq(nc + opts[c..], |nc|))
      && (!opts[c].isCustom ==> NonCustom(opts[..c + 1]) + opts[c + 1..] == nc + opts[c..])
  {
    NonCustomStep(opts, c);
    assert opts[c..] == [opts[c]] + opts[c + 1..];
    ClearStepParts(NonCustom(opts[..c]), NonCustom(opts[..c + 1]), opts[c], opts[c + 1..]);
  }

  /** The step of the removal loop on its parts: the cleared prefix, the option and the rest. */
  lemma ClearStepParts(nc: seq<LangOption>, nc1: seq<LangOption>, e: LangOption, y: seq<LangOption>)
    requires nc1 == nc + (if e.isCustom then [] else [e])
    ensures e.isCustom ==> nc1 + y == RemoveSeq(nc + ([e] + y), |nc|)
    ensures !e.isCustom ==> nc1 + y == nc + ([e] + y)
  {
    assert nc + ([e] + y) == nc + [e] + y;
    if e.isCustom {
      RemoveBetween(nc, e, y);
    }
  }

  /** The options of one step of the removal loop. */
  lemma ClearStepOptions(b: SelectBox, c: nat)
    requires c < |b.options|
    ensures var p, i := PartlyCleared(b, c).options, |NonCustom(b.options[..c])|;
      && i < |p| && p[i] == b.options[c]
      && (b.options[c].isCustom ==>
            |NonCustom(b.options[..c + 1])| == i && PartlyCleared(b, c + 1).options == RemoveSeq(p, i))
      && (!b.options[c].isCustom ==>
            |NonCustom(b.options[..c + 1])| == i + 1 && PartlyCleared(b, c + 1).options == p)
  {
    var opts := b.options;
    var nc := NonCustom(opts[..c]);
    NonCustomStep(opts, c);
    ClearStepSeq(opts, c);
    assert (nc + opts[c..])[|nc|] == opts[c..][0] == opts[c];
  }

  /** The selection of a step of the removal loop that removes a custom option. */
  lemma ClearStepRemovesSelection(b: SelectBox, c: nat)
    requires WellFormed(b) && c < |b.options| && b.options[c].isCustom
    ensures var p := PartlyCleared(b, c);
      PartlyCleared(b, c + 1).selected == RemovedSelection(p.selected, |NonCustom(b.options[..c])|, |p.options|)
  {
    NonCustomSnoc(b.options, c);
    if HasCustom(b.options[..c]) {
      LaterRemovalSelection(b, c);
    } else {
      FirstRemovalSelection(b, c);
    }
  }

  /** The first removal: the selection is still the original one, and `c` options precede. */
  lemma FirstRemovalSelection(b: SelectBox, c: nat)
    requires WellFormed(b) && c < |b.options| && b.options[c].isCustom && !HasCustom(b.options[..c])
    requires HasCustom(b.options[..c + 1]) && |NonCustom(b.options[..c + 1])| == |NonCustom(b.options[..c])|
    ensures var p := PartlyCleared(b, c);
      PartlyCleared(b, c + 1).selected == RemovedSelection(p.selected, |NonCustom(b.options[..c])|, |p.options|)
  {
    var opts, sel := b.options, b.selected;
    PlainPrefix(opts, c, c);
    if sel.Some? && sel.value < c {
      PlainPrefix(opts, c, sel.value);
    }
  }

  /** A later removal: the selection is on a surviving option, or on the first option. */
  lemma LaterRemovalSelection(b: SelectBox, c: nat)
    requires WellFormed(b) && c < |b.options| && b.options[c].isCustom && HasCustom(b.options[..c])
    requires HasCustom(b.options[..c + 1]) && |NonCustom(b.options[..c + 1])| == |NonCustom(b.options[..c])|
    ensures var p := PartlyCleared(b, c);
      PartlyCleared(b, c + 1).selected == RemovedSelection(p.selected, |NonCustom(b.options[..c])|, |p.options|)
  {
    var opts, sel := b.options, b.selected;
    if sel.Some? && sel.value < c && !opts[sel.value].isCustom {
      NonCustomBefore(opts, sel.value, c);
    }
  }

  /** The selection of a step of the removal loop that passes over a regular option. */
  lemma ClearStepKeepsSelection(b: SelectBox, c: nat)
    requires c < |b.options| && !b.options[c].isCustom
    ensures PartlyCleared(b, c + 1).selected == PartlyCleared(b, c).selected
  {
    NonCustomSnoc(b.options, c);
  }

  /** One step of the insertion loop: the next stored name goes before the reference option,
      now `t` places further down. */
  lemma InsertStep(k: SelectBox, a: nat, names: seq<string>, t: nat)
    requires a <= |k.options| && t < |names|
    ensures a + t <= |InsertedAt(k, a, names[..t]).options|
    ensures InsertedAt(k, a, names[..t + 1]) == InsertOption(InsertedAt(k, a, names[..t]), a + t, CustomOption(names[t]))
  {
    var before, c, after := k.options[..a], CustomOptions(names[..t]), k.options[a..];
    var l := before + c + after;
    assert CustomOptions(names[..t + 1]) == c + [CustomOption(names[t])];
    assert l[..a + t] == before + c && l[a + t..] == after;
  }

  /** The reference node found before the removals keeps its place among the regular options. */
  lemma AnchorAfterClearing(opts: seq<LangOption>, j: nat)
    requires FirstWithValue(opts, CustomValue) == Some(j) && !opts[j].isCustom
    ensures AnchorIndex(NonCustom(opts)) == |NonCustom(opts[..j])|
  {
    NonCustomAt(opts, j);
    NonCustomValues(opts[..j], CustomValue);
    FirstWithValueAt(NonCustom(opts), CustomValue, |NonCustom(opts[..j])|);
  }

  /** Without a `custom` option the insertions append. */
  lemma AnchorAfterClearingNone(opts: seq<LangOption>)
    requires FirstWithValue(opts, CustomValue).None?
    ensures AnchorIndex(NonCustom(opts)) == |NonCustom(opts)|
  {
    NonCustomValues(opts, CustomValue);
  }

  /** Both sides of a cut through a list of regular options are lists of regular options. */
  lemma PlainSlices(k: seq<LangOption>, a: nat)
    requires a <= |k| && forall m :: 0 <= m < |k| ==> !k[m].isCustom
    ensures NonCustom(k[..a]) == k[..a] && Customs(k[..a]) == []
    ensures NonCustom(k[a..]) == k[a..] && Customs(k[a..]) == []
  {
    var x, y := k[..a], k[a..];
    assert forall m :: 0 <= m < |x| ==> x[m] == k[m];
    FiltersOfPlain(x);
    assert forall m :: 0 <= m < |y| ==> y[m] == k[a + m];
    FiltersOfPlain(y);
  }

  /** A run of custom options between two runs of regular options: filtering separates them. */
  lemma FiltersOfThree(x: seq<LangOption>, c: seq<LangOption>, y: seq<LangOption>)
    requires NonCustom(x) == x && Customs(x) == [] && NonCustom(y) == y && Customs(y) == []
    requires NonCustom(c) == [] && Customs(c) == c
    ensures NonCustom(x + c + y) == x + y
    ensures Customs(x + c + y) == c
  {
    var xc := x + c;
    NonCustomAppend(xc, y);
    NonCustomAppend(x, c);
    assert NonCustom(xc) == x by { assert x + [] == x; }
    CustomsAppend(xc, y);
    CustomsAppend(x, c);
    assert Customs(xc) == c by { assert [] + c == c; }
    assert c + [] == c;
  }

  /** The regular part of the list after the insertions is the list before them. */
  lemma InsertedRegular(k: seq<LangOption>, a: nat, names: seq<string>)
    requires a <= |k| && forall m :: 0 <= m < |k| ==> !k[m].isCustom
    ensures NonCustom(k[..a] + CustomOptions(names) + k[a..]) == k
  {
    PlainSlices(k, a);
    FiltersOfCustomOptions(names);
    FiltersOfThree(k[..a], CustomOptions(names), k[a..]);
    assert k[..a] + k[a..] == k;
  }

  /** The custom part of the list after the insertions is the inserted names. */
  lemma InsertedCustoms(k: seq<LangOption>, a: nat, names: seq<string>)
    requires a <= |k| && forall m :: 0 <= m < |k| ==> !k[m].isCustom
    ensures Customs(k[..a] + CustomOptions(names) + k[a..]) == CustomOptions(names)
  {
    PlainSlices(k, a);
    FiltersOfCustomOptions(names);
    FiltersOfThree(k[..a], CustomOptions(names), k[a..]);
  }

  /** After a load the custom options are exactly the stored languages, in stored order (none
      when `insertBefore` throws). */
  lemma LoadInsertsStored(b: SelectBox, stored: seq<string>)
    ensures Customs(LoadResult(b, stored).options) == (if LoadAborts(b.options, stored) then [] else CustomOptions(stored))
  {
    var k := NonCustom(b.options);
    if LoadAborts(b.options, stored) {
      FiltersOfPlain(k);
    } else {
      InsertedCustoms(k, AnchorIndex(k), stored);
    }
  }

  /** A load never adds, drops or reorders a regular option. */
  lemma LoadKeepsNonCustom(b: SelectBox, stored: seq<string>)
    ensures NonCustom(LoadResult(b, stored).options) == NonCustom(b.options)
  {
    var k := NonCustom(b.options);
    if LoadAborts(b.options, stored) {
      FiltersOfPlain(k);
    } else {
      InsertedRegular(k, AnchorIndex(k), stored);
    }
  }

  /** With a regular `custom` option, the stored languages come in order immediately before it,
      after the regular options that precede it. */
  lemma LoadPlacesBeforeAnchor(b: SelectBox, stored: seq<string>, j: nat)
    requires FirstWithValue(b.options, CustomValue) == Some(j) && !b.options[j].isCustom
    ensures var r, a := LoadResult(b, stored).options, |NonCustom(b.options[..j])|;
      && a + |stored| < |r|
      && r[..a] == NonCustom(b.options[..j])
      && r[a..a + |stored|] == CustomOptions(stored)
      && r[a + |stored|] == b.options[j]
  {
    var k := NonCustom(b.options);
    var a := |NonCustom(b.options[..j])|;
    AnchorAfterClearing(b.options, j);
    NonCustomAt(b.options, j);
    var r := LoadResult(b, stored).options;
    assert r == k[..a] + CustomOptions(stored) + k[a..];
    assert r[a + |stored|] == k[a];
    assert r[..a] == k[..a];
    assert r[a..a + |stored|] == CustomOptions(stored);
  }

  /** With no `custom` option the stored languages are appended after the regular options. */
  lemma LoadAppendsWithoutAnchor(b: SelectBox, stored: seq<string>)
    requires FirstWithValue(b.options, CustomValue).None?
    ensures LoadResult(b, stored).options == NonCustom(b.options) + CustomOptions(stored)
  {
    var k := NonCustom(b.options);
    AnchorAfterClearingNone(b.options);
    assert k[..|k|] == k && k[|k|..] == [];
  }

  /** Inserting stored names keeps the selected option selected. */
  lemma InsertedKeepsSelection(k: SelectBox, a: nat, names: seq<string>)
    requires WellFormed(k) && k.selected.Some? && a <= |k.options|
    ensures var r := InsertedAt(k, a, names);
      r.selected.Some? && r.selected.value < |r.options| && r.options[r.selected.value] == k.options[k.selected.value]
  {
    var p := k.selected.value;
    var l := k.options[..a] + CustomOptions(names) + k.options[a..];
    if names == [] {
      assert l == k.options;
    } else if p >= a {
      assert l[p + |names|] == k.options[p];
    } else {
      assert l[p] == k.options[p];
    }
  }

  /** Removing the custom options keeps a selected regular option selected. */
  lemma ClearedKeepsSelection(b: SelectBox, j: nat)
    requires WellFormed(b) && b.selected == Some(j) && !b.options[j].isCustom
    ensures var k := Cleared(b);
      k.selected.Some? && k.selected.value < |k.options| && k.options[k.selected.value] == b.options[j]
  {
    var opts := b.options;
    assert opts[..|opts|] == opts;
    if !HasCustom(opts) {
      FiltersOfPlain(opts);
    } else {
      NonCustomAt(opts, j);
    }
  }

  /** A load keeps the selection on a selected regular option, and `select.value` with it. */
  lemma LoadKeepsSelection(b: SelectBox, stored: seq<string>, j: nat)
    requires WellFormed(b) && b.selected == Some(j) && !b.options[j].isCustom
    ensures var r := LoadResult(b, stored);
      r.selected.Some? && r.selected.value < |r.options| && r.options[r.selected.value] == b.options[j]
    ensures SelectedValue(LoadResult(b, stored)) == SelectedValue(b)
  {
    ClearedKeepsSelection(b, j);
    var k := Cleared(b);
    if !LoadAborts(b.options, stored) {
      InsertedKeepsSelection(k, AnchorIndex(k.options), stored);
    }
  }

  /** A load moves the selection off a selected custom option to the first regular option. */
  lemma LoadReplacesCustomSelection(b: SelectBox, stored: seq<string>, j: nat)
    requires WellFormed(b) && b.selected == Some(j) && b.options[j].isCustom && NonCustom(b.options) != []
    ensures var r := LoadResult(b, stored);
      r.selected.Some? && r.selected.value < |r.options| && r.options[r.selected.value] == NonCustom(b.options)[0]
  {
    var opts := b.options;
    assert opts[..|opts|] == opts;
    assert opts[..|opts|][j].isCustom;
    var k := Cleared(b);
    assert k.selected == Some(0);
    if !LoadAborts(opts, stored) {
      InsertedKeepsSelection(k, AnchorIndex(k.options), stored);
    }
  }

  /** An empty stored list only clears the custom options. */
  lemma LoadNothing(b: SelectBox)
    ensures LoadResult(b, []) == Cleared(b)
  {
    var k := Cleared(b).options;
    assert k[..AnchorIndex(k)] + [] + k[AnchorIndex(k)..] == k;
  }

  /** A load that does not abort inserts the stored list at the reference option's place. */
  lemma LoadInserts(b: SelectBox, stored: seq<string>, a: nat)
    requires !LoadAborts(b.options, stored) && a == AnchorIndex(Cleared(b).options)
    ensures LoadResult(b, stored) == InsertedAt(Cleared(b), a, stored)
  {
  }

  /** A load keeps the selected index within the list. */
  lemma LoadWellFormed(b: SelectBox, stored: seq<string>)
    requires WellFormed(b)
    ensures WellFormed(LoadResult(b, stored))
  {
    var opts := b.options;
    assert opts[..|opts|] == opts;
    if !HasCustom(opts) {
      FiltersOfPlain(opts);
    } else if b.selected.Some? && !opts[b.selected.value].isCustom {
      NonCustomAt(opts, b.selected.value);
    }
  }

  /** No stored language is named "custom" in any letter case. */
  predicate NoCustomNamed(stored: seq<string>)
  {
    forall t :: 0 <= t < |stored| ==> Lower(stored[t]) != CustomValue
  }

  /** After a completed load every option with the value "custom" is a regular one, when no stored
      language is named "custom". */
  lemma LoadedCustomValuesAreRegular(b: SelectBox, stored: seq<string>)
    requires !LoadAborts(b.options, stored) && NoCustomNamed(stored)
    ensures var r := LoadResult(b, stored).options;
      forall f :: 0 <= f < |r| && r[f].isCustom ==> r[f].value != CustomValue
  {
    var k := NonCustom(b.options);
    var a := AnchorIndex(k);
    var c := CustomOptions(stored);
    var r := k[..a] + c + k[a..];
    forall f | 0 <= f < |r| && r[f].isCustom ensures r[f].value != CustomValue {
      if a <= f < a + |stored| {
        assert r[f] == c[f - a];
      }
    }
  }

  /** Re-running the load with the same stored list (what the storage subscription does) gives
      the same options again, when no stored language is named "custom". */
  lemma LoadTwice(b: SelectBox, stored: seq<string>)
    requires !LoadAborts(b.options, stored) && NoCustomNamed(stored)
    ensures LoadResult(LoadResult(b, stored), stored).options == LoadResult(b, stored).options
  {
    var k := NonCustom(b.options);
    var r := LoadResult(b, stored).options;
    LoadedCustomValuesAreRegular(b, stored);
    assert !LoadAborts(r, stored);
    InsertedRegular(k, AnchorIndex(k), stored);
  }

  /** A completed load with a stored language whose lower-cased name is "custom", before a regular
      `custom` option, makes the next load throw: that option is now the first with the value
      "custom", and it is removed as a custom option before the insertions. The next load then
      leaves no custom option at all. */
  lemma ReloadAbortsOnCustomName(b: SelectBox, stored: seq<string>, t: nat)
    requires !LoadAborts(b.options, stored)
    requires t < |stored| && Lower(stored[t]) == CustomValue
    ensures LoadAborts(LoadResult(b, stored).options, stored)
    ensures Customs(LoadResult(LoadResult(b, stored), stored).options) == []
  {
    var k := NonCustom(b.options);
    var a := AnchorIndex(k);
    var c := CustomOptions(stored);
    var r := k[..a] + c + k[a..];
    assert r[a + t] == c[t];
    var f := FirstWithValue(r, CustomValue).value;
    assert f >= a;
    assert r[f] == c[f - a];
    LoadInsertsStored(LoadResult(b, stored), stored);
  }

  // ---------------------------------------------------------------- the Enter handler

  /** `Array.from(options).some(o => o.text.toLowerCase() === name.toLowerCase())`. */
  predicate TextTaken(opts: seq<LangOption>, name: string)
  {
    exists k :: 0 <= k < |opts| && Lower(opts[k].text) == Lower(name)
  }

  /** Whether a name is taken does not depend on its letter case. */
  lemma TextTakenIgnoresCase(opts: seq<LangOption>, name: string)
    ensures TextTaken(opts, name) <==> TextTaken(opts, Lower(name))
  {
    LowerIdempotent(name);
  }

  /** Enter with the trimmed text `name` adds an option only when no option already has that
      text, ignoring case; the new one goes before the `custom` option. */
  function AddCustom(b: SelectBox, name: string): (r: SelectBox)
    ensures TextTaken(b.options, name) ==> r == b
    ensures !TextTaken(b.options, name) ==> r.options == InsertSeq(b.options, AnchorIndex(b.options), CustomOption(name))
    ensures WellFormed(b) ==> WellFormed(r)
    ensures TextTaken(r.options, name)
  {
    if TextTaken(b.options, name) then b
    else
      var a := AnchorIndex(b.options);
      var r := InsertOption(b, a, CustomOption(name));
      assert Lower(r.options[a].text) == Lower(name);
      r
  }

  /** No two option texts are the same ignoring case. */
  predicate TextsDistinct(opts: seq<LangOption>)
  {
    forall i, j :: 0 <= i < j < |opts| ==> Lower(opts[i].text) != Lower(opts[j].text)
  }

  /** Enter never creates a second option with the same text, ignoring case. */
  lemma AddCustomKeepsTextsDistinct(b: SelectBox, name: string)
    requires TextsDistinct(b.options)
    ensures TextsDistinct(AddCustom(b, name).options)
  {
    if !TextTaken(b.options, name) {
      var opts := b.options;
      var a := AnchorIndex(opts);
      var r := AddCustom(b, name).options;
      forall i, j | 0 <= i < j < |r| ensures Lower(r[i].text) != Lower(r[j].text) {
        assert r[i] == (if i < a then opts[i] else if i == a then CustomOption(name) else opts[i - 1]);
        assert r[j] == (if j < a then opts[j] else if j == a then CustomOption(name) else opts[j - 1]);
      }
    }
  }

  /** A name not yet present adds exactly one option, custom, just before the `custom` option;
      taking it out again gives back the previous list. */
  lemma AddCustomPlacement(b: SelectBox, name: string)
    requires !TextTaken(b.options, name)
    ensures var a, r := AnchorIndex(b.options), AddCustom(b, name).options;
      && |r| == |b.options| + 1
      && r[a] == CustomOption(name)
      && (a < |b.options| ==> r[a + 1].value == CustomValue)
      && RemoveSeq(r, a) == b.options
  {
    var opts, a := b.options, AnchorIndex(b.options);
    var r := AddCustom(b, name).options;
    assert r == opts[..a] + [CustomOption(name)] + opts[a..];
    assert r[..a] == opts[..a] && r[a + 1..] == opts[a..];
    assert opts[..a] + opts[a..] == opts;
  }

  /** After Enter the select holds the lower-cased name whenever an option was added for it;
      when the name was already present its value is taken only if some option carries it. */
  lemma EnterSelectsName(b: SelectBox, name: string)
    ensures !TextTaken(b.options, name) ==> SelectedValue(SelectByValue(AddCustom(b, name), Lower(name))) == Lower(name)
    ensures TextTaken(b.options, name) ==>
      SelectedValue(SelectByValue(AddCustom(b, name), Lower(name)))
      == (if FirstWithValue(b.options, Lower(name)).Some? then Lower(name) else "")
  {
    var r := AddCustom(b, name);
    if !TextTaken(b.options, name) {
      var a := AnchorIndex(b.options);
      assert r.options[a].value == Lower(name);
    }
  }

  // ---------------------------------------------------------------- the two loops of the load

  /** The removal loop of `loadCustomLanguages`: each custom option of a snapshot of the list is
      removed in turn, the selection being settled after each removal. */
  method RemoveCustomOptions(orig: SelectBox) returns (list: SelectBox)
    requires WellFormed(orig)
    ensures list == Cleared(orig)
  {
    list := orig;
    var i := 0;
    ClearDone(orig);
    for c := 0 to |orig.options|
      invariant i == |NonCustom(orig.options[..c])|
      invariant list == PartlyCleared(orig, c)
    {
      ClearStepOptions(orig, c);
      if orig.options[c].isCustom {
        ClearStepRemovesSelection(orig, c);
        list := RemoveOption(list, i);
      } else {
        ClearStepKeepsSelection(orig, c);
        i := i + 1;
      }
    }
  }

  /** The insertion loop of `loadCustomLanguages`: each stored name goes before the reference
      option, which is at `a + t` after `t` insertions. */
  method InsertBeforeAnchor(cleared: SelectBox, a: nat, stored: seq<string>) returns (list: SelectBox)
    requires a <= |cleared.options|
    ensures list == InsertedAt(cleared, a, stored)
  {
    list := cleared;
    assert stored[..0] == [];
    assert cleared.options[..a] + [] + cleared.options[a..] == cleared.options;
    for t := 0 to |stored|
      invariant list == InsertedAt(cleared, a, stored[..t])
    {
      InsertStep(cleared, a, stored, t);
      list := InsertOption(list, a + t, CustomOption(stored[t]));
    }
    assert stored[..|stored|] == stored;
  }

  /** The steps of the Enter handler on the select, for a non-empty `name`: the option added
      when no option shows that name already, then the selection moved to its value. `saved` is
      the name handed to the storage, when an option was added. */
  method EnterName(b: SelectBox, name: string) returns (r: SelectBox, saved: Option<string>)
    requires WellFormed(b)
    ensures WellFormed(r)
    ensures saved == (if TextTaken(b.options, name) then None else Some(name))
    ensures r == SelectByValue(AddCustom(b, name), Lower(name))
  {
    saved := None;
    if !TextTaken(b.options, name) {
      saved := Some(name);
    }
    r := SelectByValue(AddCustom(b, name), Lower(name));
  }

  // ---------------------------------------------------------------- the page state

  /** The select, the closure variables `lastSelectedLanguage` and `lastCustomInput`, whether the
      custom-language input is hidden, and the text in the custom-language field. */
  class LanguagePicker {
    var select: SelectBox
    var lastSelectedLanguage: string
    var lastCustomInput: string
    var inputHidden: bool
    var fieldValue: string

    /** The page after loading: `lastSelectedLanguage` starts as the select's value and
        `lastCustomInput` as "". */
    constructor(select: SelectBox, inputHidden: bool, fieldValue: string)
      requires WellFormed(select)
      ensures this.select == select && this.inputHidden == inputHidden && this.fieldValue == fieldValue
      ensures lastSelectedLanguage == SelectedValue(select) && lastCustomInput == ""
    {
      this.select := select;
      this.inputHidden := inputHidden;
      this.fieldValue := fieldValue;
      lastSelectedLanguage := SelectedValue(select);
      lastCustomInput := "";
    }

    /** Not a handler of the page: it stands for the user typing into the custom-language field,
        which sets the field's value that the blur and Enter handlers read. */
    method Type(text: string)
      modifies this
      ensures fieldValue == text
      ensures select == old(select) && lastSelectedLanguage == old(lastSelectedLanguage)
      ensures lastCustomInput == old(lastCustomInput) && inputHidden == old(inputHidden)
    {
      fieldValue := text;
    }

    /** `loadCustomLanguages()` with the list the storage returned for this user: the removal of
        every custom option, one at a time, then the insertion of each stored name before the
        `custom` option found at the start. `completed` is false when `insertBefore` throws. */
    method LoadCustomLanguages(stored: seq<string>) returns (completed: bool)
      requires WellFormed(select)
      modifies this
      ensures completed <==> !LoadAborts(old(select).options, stored)
      ensures select == LoadResult(old(select), stored) && WellFormed(select)
      ensures lastSelectedLanguage == old(lastSelectedLanguage) && lastCustomInput == old(lastCustomInput)
      ensures inputHidden == old(inputHidden) && fieldValue == old(fieldValue)
    {
      var orig := select;
      LoadWellFormed(orig, stored);
      var customOption := FirstWithValue(orig.options, CustomValue);
      select := RemoveCustomOptions(orig);
      if stored == [] {
        LoadNothing(orig);
        return true;
      }
      if customOption.Some? && orig.options[customOption.value].isCustom {
        return false;
      }
      // The reference node keeps its place among the options that survived.
      var a;
      if customOption.Some? {
        a := |NonCustom(orig.options[..customOption.value])|;
        AnchorAfterClearing(orig.options, customOption.value);
      } else {
        a := |select.options|;
        AnchorAfterClearingNone(orig.options);
      }
      LoadInserts(orig, stored, a);
      select := InsertBeforeAnchor(select, a, stored);
      return true;
    }

    /** The select's change handler, when the user picks option `i`. */
    method OnSelectChange(i: nat)
      requires i < |select.options|
      requires WellFormed(select)
      modifies this
      ensures WellFormed(select)
      ensures select == SelectIndex(old(select), i)
      ensures old(select).options[i].value == CustomValue ==>
        !inputHidden && fieldValue == lastCustomInput && lastSelectedLanguage == old(lastSelectedLanguage)
      ensures old(select).options[i].value != CustomValue ==>
        inputHidden && lastSelectedLanguage == old(select).options[i].value && fieldValue == old(fieldValue)
      ensures lastCustomInput == old(lastCustomInput)
    {
      select := SelectIndex(select, i);
      var v := SelectedValue(select);
      if v == CustomValue {
        inputHidden := false;
        fieldValue := lastCustomInput;
      } else {
        inputHidden := true;
        lastSelectedLanguage := v;
      }
    }

    /** The custom-language field's blur handler. */
    method OnBlur()
      requires WellFormed(select)
      modifies this
      ensures lastCustomInput == Trim(old(fieldValue))
      ensures WellFormed(select)
      ensures Trim(old(fieldValue)) == "" ==>
        select == SelectByValue(old(select), old(lastSelectedLanguage)) && inputHidden
      ensures Trim(old(fieldValue)) != "" ==> select == old(select) && inputHidden == old(inputHidden)
      ensures lastSelectedLanguage == old(lastSelectedLanguage) && fieldValue == old(fieldValue)
    {
      var customValue := Trim(fieldValue);
      lastCustomInput := customValue;
      if customValue == "" {
        select := SelectByValue(select, lastSelectedLanguage);
        inputHidden := true;
      }
    }

    /** The body of the Enter handler for a non-blank `name`: the option added when no option
        shows that name already, then the selection moved to its value and the field hidden and
        cleared. `saved` is the name handed to the storage's `create`. */
    method AddAndSelect(name: string) returns (saved: Option<string>)
      requires WellFormed(select) && name != ""
      modifies this
      ensures WellFormed(select)
      ensures saved == (if TextTaken(old(select).options, name) then None else Some(name))
      ensures select == SelectByValue(AddCustom(old(select), name), Lower(name))
      ensures lastSelectedLanguage == Lower(name) && inputHidden && fieldValue == ""
      ensures lastCustomInput == old(lastCustomInput)
    {
      var picked;
      picked, saved := EnterName(select, name);
      select, lastSelectedLanguage, inputHidden, fieldValue := picked, Lower(name), true, "";
    }

    /** The custom-language field's Enter handler. `saved` is the name handed to the storage's
        `create`, when an option is added for it. */
    method OnEnter() returns (saved: Option<string>)
      requires WellFormed(select)
      modifies this
      ensures lastCustomInput == Trim(old(fieldValue))
      ensures WellFormed(select)
      ensures Trim(old(fieldValue)) == "" ==>
        saved.None? && select == old(select) && inputHidden == old(inputHidden)
        && lastSelectedLanguage == old(lastSelectedLanguage) && fieldValue == old(fieldValue)
      ensures Trim(old(fieldValue)) != "" ==>
        var name := Trim(old(fieldValue));
        && saved == (if TextTaken(old(select).options, name) then None else Some(name))
        && select == SelectByValue(AddCustom(old(select), name), Lower(name))
        && lastSelectedLanguage == Lower(name) && inputHidden && fieldValue == ""
    {
      var customValue := Trim(fieldValue);
      lastCustomInput := customValue;
      saved := None;
      if customValue != "" {
        saved := AddAndSelect(customValue);
      }
    }
  }
}
