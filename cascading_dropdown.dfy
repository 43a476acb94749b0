/**
 * The client side of the add form (js/cascading-dropdown.js): five dropdowns,
 * one per level of the hierarchy system, module, feature, client, source.
 * A level is enabled once the level before it has a value; clearing a level
 * disables every level after it. The dropdowns' options come from the
 * cascading endpoint, with the typed term offered as a new entry when no
 * option matches it.
 *
 * Only the state the script keeps is modelled: `selectionState` (one entry
 * per level) and whether each level's dropdown is enabled.
 */
module CascadingDropdown {
  import opened Wrappers
  import opened Text
  import opened CascadingEndpoint

  /** The `hierarchy` of selectors, top level first. */
  const Hierarchy: seq<string> := ["#system_name", "#module", "#feature", "#client", "#source"]

  /** The number of levels. */
  const Depth: int := 5

  /** `hierarchy.indexOf(selector)`: the level of a selector, or -1. */
  function IndexOf(selector: string): (r: int)
    ensures -1 <= r < Depth
    ensures r >= 0 ==> Hierarchy[r] == selector
    ensures r == -1 ==> selector !in Hierarchy
  {
    if selector == Hierarchy[0] then 0
    else if selector == Hierarchy[1] then 1
    else if selector == Hierarchy[2] then 2
    else if selector == Hierarchy[3] then 3
    else if selector == Hierarchy[4] then 4
    else -1
  }

  /** The selectors are distinct, so each one's level is its position. */
  lemma IndexOfLevel(k: int)
    requires 0 <= k < Depth
    ensures IndexOf(Hierarchy[k]) == k
  {
    assert Hierarchy[0][1] == 's' && Hierarchy[0][2] == 'y';
    assert Hierarchy[1][1] == 'm' && Hierarchy[2][1] == 'f' && Hierarchy[3][1] == 'c';
    assert Hierarchy[4][1] == 's' && Hierarchy[4][2] == 'o';
  }

  // ---------------------------------------------------------------------
  // Labels.
  // ---------------------------------------------------------------------

  /** The `fieldNames` table of `getPreviousFieldName`. */
  const FieldNames: map<string, string> := map[
    "#system_name" := "System Name",
    "#module" := "Module",
    "#feature" := "Feature",
    "#client" := "Client",
    "#source" := "Source"
  ]

  /** The label of each level, in hierarchy order. */
  const Labels: seq<string> := ["System Name", "Module", "Feature", "Client", "Source"]

  /** `getPreviousFieldName(selector)`: the label of the level before, or `''` for the first level and unknown selectors. */
  function PreviousFieldName(selector: string): string {
    var c := IndexOf(selector);
    if c <= 0 then ""
    else if Hierarchy[c - 1] in FieldNames then FieldNames[Hierarchy[c - 1]]
    else "previous field"
  }

  /** Every level after the first names the label of the level right before it. */
  lemma PreviousFieldNames(selector: string, k: int)
    requires 0 <= k < Depth
    ensures PreviousFieldName(Hierarchy[k]) == (if k == 0 then "" else Labels[k - 1])
    ensures selector !in Hierarchy ==> PreviousFieldName(selector) == ""
  {
    IndexOfLevel(k);
  }

  // ---------------------------------------------------------------------
  // The state: a selection and an enabled flag per level.
  // ---------------------------------------------------------------------

  /** A snapshot of the state: `enabled[k]` and `selection[k]` for level `k`. */
  datatype Levels = Levels(enabled: seq<bool>, selection: seq<Option<string>>) {
    predicate Valid() {
      |enabled| == Depth && |selection| == Depth
    }
  }

  /** JavaScript's `value && value.trim() !== ''`: a value that is present and not blank. */
  predicate Chosen(value: Option<string>) {
    value.Some? && JsTrim(value.value) != ""
  }

  /** `enableDropdown` of level `k`. */
  function EnableLevel(st: Levels, k: int): (r: Levels)
    requires st.Valid() && 0 <= k < Depth
    ensures r.Valid()
  {
    st.(enabled := st.enabled[k := true])
  }

  /** `disableDropdown` of level `k`: its selection is cleared too. */
  function DisableLevel(st: Levels, k: int): (r: Levels)
    requires st.Valid() && 0 <= k < Depth
    ensures r.Valid()
  {
    Levels(st.enabled[k := false], st.selection[k := None])
  }

  /** Every level from `from` on disabled and cleared; the levels before kept. */
  function DisableFrom(st: Levels, from: int): (r: Levels)
    requires st.Valid()
    ensures r.Valid()
  {
    Levels(seq(Depth, k requires 0 <= k < Depth => if k >= from then false else st.enabled[k]),
           seq(Depth, k requires 0 <= k < Depth => if k >= from then None else st.selection[k]))
  }

  /** `handleProgressiveEnabling` for the level `c` (-1 for an unknown selector) and the new value. */
  function ProgressiveEnabling(st: Levels, c: int, value: Option<string>): (r: Levels)
    requires st.Valid() && -1 <= c < Depth
    ensures r.Valid()
  {
    if Chosen(value) then (if c < Depth - 1 then EnableLevel(st, c + 1) else st)
    else DisableFrom(st, c + 1)
  }

  /** `updateDependentDropdowns` for level `c`: the selections after it are cleared. */
  function ClearDependents(st: Levels, c: int): (r: Levels)
    requires st.Valid()
    ensures r.Valid()
  {
    st.(selection := seq(Depth, k requires 0 <= k < Depth => if k > c then None else st.selection[k]))
  }

  /** `initializeDropdownStates`: only the first level enabled; the others disabled and cleared. */
  function Initialized(st: Levels): (r: Levels)
    requires st.Valid()
    ensures r.Valid()
  {
    Levels([true, false, false, false, false], [st.selection[0], None, None, None, None])
  }

  /**
   * The `select2:select` handler of level `level`: a new tag, or an existing
   * option with a non-blank id, becomes the level's selection, and then the
   * enabling and the clearing of the dependents follow.
   */
  function Selected(st: Levels, level: int, id: string, newTag: bool): (r: Levels)
    requires st.Valid() && 0 <= level < Depth
    ensures r.Valid()
  {
    if newTag || Chosen(Some(id)) then
      ClearDependents(ProgressiveEnabling(st.(selection := st.selection[level := Some(id)]), level, Some(id)), level)
    else st
  }

  /** A non-blank value at a level enables the next level, if there is one, and changes nothing else. */
  lemma ChosenEnablesOnlyNext(st: Levels, c: int, value: Option<string>)
    requires st.Valid() && 0 <= c < Depth && Chosen(value)
    ensures var r := ProgressiveEnabling(st, c, value);
      r.selection == st.selection &&
      forall k :: 0 <= k < Depth ==> r.enabled[k] == (k == c + 1 || st.enabled[k])
  {
  }

  /** A blank value at a level disables every later level and clears its selection; earlier levels are kept. */
  lemma BlankDisablesLater(st: Levels, c: int, value: Option<string>)
    requires st.Valid() && 0 <= c < Depth && !Chosen(value)
    ensures var r := ProgressiveEnabling(st, c, value);
      forall k :: 0 <= k < Depth ==>
        (k > c ==> !r.enabled[k] && r.selection[k].None?) &&
        (k <= c ==> r.enabled[k] == st.enabled[k] && r.selection[k] == st.selection[k])
  {
  }

  /** Clearing the dependents of a level empties the later levels, keeps the others and enables nothing. */
  lemma ClearDependentsKeepsEarlier(st: Levels, c: int)
    requires st.Valid()
    ensures var r := ClearDependents(st, c);
      r.enabled == st.enabled &&
      forall k :: 0 <= k < Depth ==> r.selection[k] == (if k > c then None else st.selection[k])
  {
  }

  /** A choice at a level is recorded, the next level opens, and every later selection is dropped. */
  lemma SelectedOpensNext(st: Levels, level: int, id: string)
    requires st.Valid() && 0 <= level < Depth && Chosen(Some(id))
    ensures var r := Selected(st, level, id, false);
      r.selection[level] == Some(id) &&
      (level + 1 < Depth ==> r.enabled[level + 1]) &&
      (forall k :: level < k < Depth ==> r.selection[k].None?) &&
      (forall k :: 0 <= k < level ==> r.selection[k] == st.selection[k] && r.enabled[k] == st.enabled[k])
  {
  }

  /** A disabled level holds no selection. */
  ghost predicate Coherent(st: Levels) {
    st.Valid() && forall k :: 0 <= k < Depth && !st.enabled[k] ==> st.selection[k].None?
  }

  /**
   * Every step keeps the state coherent: the start-up state is, and so is the
   * state after any step, given that only an enabled dropdown can be chosen in.
   */
  lemma CoherentSteps(st: Levels, c: int, value: Option<string>, level: int, id: string, newTag: bool)
    requires Coherent(st) && -1 <= c < Depth && 0 <= level < Depth
    ensures Coherent(Initialized(st))
    ensures Coherent(ProgressiveEnabling(st, c, value))
    ensures Coherent(ClearDependents(st, c))
    ensures st.enabled[level] ==> Coherent(Selected(st, level, id, newTag))
  {
    InitializedCoherent(st);
    ProgressiveEnablingCoherent(st, c, value);
    ClearDependentsCoherent(st, c);
    if st.enabled[level] && (newTag || Chosen(Some(id))) {
      var s1 := st.(selection := st.selection[level := Some(id)]);
      assert Coherent(s1) by {
        forall k | 0 <= k < Depth && !s1.enabled[k] ensures s1.selection[k].None? {
          assert k != level;
        }
      }
      ProgressiveEnablingCoherent(s1, level, Some(id));
      ClearDependentsCoherent(ProgressiveEnabling(s1, level, Some(id)), level);
    }
  }

  lemma InitializedCoherent(st: Levels)
    requires st.Valid()
    ensures Coherent(Initialized(st))
  {
  }

  lemma ProgressiveEnablingCoherent(st: Levels, c: int, value: Option<string>)
    requires Coherent(st) && -1 <= c < Depth
    ensures Coherent(ProgressiveEnabling(st, c, value))
  {
  }

  lemma ClearDependentsCoherent(st: Levels, c: int)
    requires Coherent(st)
    ensures Coherent(ClearDependents(st, c))
  {
  }

  /**
   * Changing the top level keeps the levels below the next one enabled even
   * though their selections are dropped: only a blank value disables levels.
   */
  lemma ReselectKeepsLowerLevelsEnabled(st: Levels, id: string)
    requires st.Valid() && Chosen(Some(id))
    requires forall k :: 0 <= k < Depth ==> st.enabled[k]
    ensures var r := Selected(st, 0, id, false);
      r.enabled[2] && r.selection[1].None? && r.selection[2].None?
  {
  }

  /** The state kept by the script for the five dropdowns. */
  class Dropdowns {
    /** `selectionState`, indexed by level. */
    const selection: array<Option<string>>
    /** Whether each level's dropdown is enabled. */
    const enabled: array<bool>

    ghost predicate Valid()
      reads this
    {
      selection.Length == Depth && enabled.Length == Depth
    }

    function State(): (st: Levels)
      reads this, selection, enabled
      requires Valid()
      ensures st.Valid()
    {
      Levels(enabled[..], selection[..])
    }

    /** The script's object: every selection null; the dropdowns enabled as the page renders them. */
    constructor (initiallyEnabled: seq<bool>)
      requires |initiallyEnabled| == Depth
      ensures Valid() && fresh(selection) && fresh(enabled)
      ensures State() == Levels(initiallyEnabled, [None, None, None, None, None])
    {
      selection := new Option<string>[Depth](_ => None);
      enabled := new bool[Depth](k requires 0 <= k < Depth => initiallyEnabled[k]);
      new;
      assert enabled[..] == initiallyEnabled;
    }

    /** `enableDropdown(hierarchy[k])`. */
    method EnableDropdown(k: int)
      requires Valid() && 0 <= k < Depth
      modifies enabled
      ensures Valid() && State() == EnableLevel(old(State()), k)
    {
      enabled[k] := true;
    }

    /** `disableDropdown(hierarchy[k])`. */
    method DisableDropdown(k: int)
      requires Valid() && 0 <= k < Depth
      modifies enabled, selection
      ensures Valid() && State() == DisableLevel(old(State()), k)
    {
      enabled[k] := false;
      selection[k] := None;
    }

    /** `initializeDropdownStates()`: the `forEach` over the hierarchy. */
    method InitializeDropdownStates()
      requires Valid()
      modifies enabled, selection
      ensures Valid() && State() == Initialized(old(State()))
    {
      ghost var st := State();
      var i := 0;
      while i < Depth
        invariant 0 <= i <= Depth
        invariant forall k :: 0 <= k < i ==> enabled[k] == (k == 0)
        invariant forall k :: i <= k < Depth ==> enabled[k] == st.enabled[k]
        invariant selection[0] == st.selection[0]
        invariant forall k :: 0 < k < i ==> selection[k].None?
        invariant forall k :: i <= k < Depth ==> selection[k] == st.selection[k]
      {
        if i == 0 {
          EnableDropdown(i);
        } else {
          DisableDropdown(i);
        }
        i := i + 1;
      }
      assert enabled[..] == Initialized(st).enabled;
      assert selection[..] == Initialized(st).selection;
    }

    /** `handleProgressiveEnabling(changedSelector, value)`. */
    method HandleProgressiveEnabling(changedSelector: string, value: Option<string>)
      requires Valid()
      modifies enabled, selection
      ensures Valid() && State() == ProgressiveEnabling(old(State()), IndexOf(changedSelector), value)
    {
      var currentIndex := IndexOf(changedSelector);
      if value.Some? && JsTrim(value.value) != "" {
        if currentIndex < Depth - 1 {
          EnableDropdown(currentIndex + 1);
        }
      } else {
        ghost var st := State();
        var i := currentIndex + 1;
        while i < Depth
          invariant currentIndex + 1 <= i <= Depth
          invariant forall k :: 0 <= k < Depth ==> enabled[k] == (if currentIndex < k < i then false else st.enabled[k])
          invariant forall k :: 0 <= k < Depth ==> selection[k] == (if currentIndex < k < i then None else st.selection[k])
        {
          DisableDropdown(i);
          i := i + 1;
        }
        assert enabled[..] == DisableFrom(st, currentIndex + 1).enabled;
        assert selection[..] == DisableFrom(st, currentIndex + 1).selection;
      }
    }

    /** `updateDependentDropdowns(changedDropdown)`: the selection state of every later level set to null. */
    method UpdateDependentDropdowns(changedDropdown: string)
      requires Valid()
      modifies selection
      ensures Valid() && State() == ClearDependents(old(State()), IndexOf(changedDropdown))
    {
      ghost var st := State();
      var currentIndex := IndexOf(changedDropdown);
      var i := currentIndex + 1;
      while i < Depth
        invariant currentIndex + 1 <= i <= Depth
        invariant forall k :: 0 <= k < Depth ==> selection[k] == (if currentIndex < k < i then None else st.selection[k])
      {
        selection[i] := None;
        i := i + 1;
      }
      assert selection[..] == ClearDependents(st, currentIndex).selection;
    }

    /** The `select2:select` handler of level `level`, for the chosen option's id and `newTag` flag. */
    method OnSelect(level: int, id: string, newTag: bool)
      requires Valid() && 0 <= level < Depth
      modifies enabled, selection
      ensures Valid() && State() == Selected(old(State()), level, id, newTag)
    {
      IndexOfLevel(level);
      if newTag || JsTrim(id) != "" {
        selection[level] := Some(id);
        HandleProgressiveEnabling(Hierarchy[level], Some(id));
        UpdateDependentDropdowns(Hierarchy[level]);
      }
    }
  }

  // ---------------------------------------------------------------------
  // Options offered by a dropdown.
  // ---------------------------------------------------------------------

  /** The endpoint's JSON reply: `success`, and the `data` list when present. */
  datatype ApiReply = ApiReply(success: bool, data: Option<seq<string>>)

  /** A Select2 option: `{id, text}`, and `newTag: true` for the typed term. */
  datatype Item = Item(id: string, text: string, newTag: bool)

  /** `processApiResults(data)`: no options for a missing or failed reply; otherwise one option per value. */
  function ProcessApiResults(reply: Option<ApiReply>): (r: seq<Item>)
    ensures reply.None? || !reply.value.success ==> r == []
    ensures reply.Some? && reply.value.success ==> |r| == |reply.value.data.GetOr([])|
  {
    if reply.None? || !reply.value.success then []
    else
      var values := reply.value.data.GetOr([]);
      seq(|values|, k requires 0 <= k < |values| => Item(values[k], values[k], false))
  }

  function Texts(items: seq<Item>): (r: seq<string>)
    ensures |r| == |items|
  {
    seq(|items|, k requires 0 <= k < |items| => items[k].text)
  }

  /** The options are the reply's values, in order, each its own id, and none is a new tag. */
  lemma ApiResultsAreValues(values: seq<string>)
    ensures var r := ProcessApiResults(Some(ApiReply(true, Some(values))));
      Texts(r) == values && forall k :: 0 <= k < |r| ==> r[k].id == r[k].text && !r[k].newTag
  {
  }

  /** The JSON the cascading endpoint sends for its answer. */
  function ReplyOf(r: Response): ApiReply {
    match r
    case Data(d) => ApiReply(true, Some(d))
    case Error(_) => ApiReply(false, None)
  }

  /** A dropdown offers exactly the values the endpoint answered, and nothing for an invalid type. */
  lemma DropdownOffersEndpointValues(r: Response)
    ensures Texts(ProcessApiResults(Some(ReplyOf(r)))) == (if r.Data? then r.data else [])
  {
    if r.Data? {
      ApiResultsAreValues(r.data);
    }
  }

  /** Whether some option's text equals `term` ignoring case. */
  predicate Offered(items: seq<Item>, term: string) {
    exists k :: 0 <= k < |items| && Lower(items[k].text) == Lower(term)
  }

  /**
   * `processResults(data, params)`: the options, with the trimmed typed term
   * put in front as a new tag when it is not blank and no option matches it.
   */
  function ProcessResults(reply: Option<ApiReply>, term: Option<string>): (r: seq<Item>) {
    var results := ProcessApiResults(reply);
    var searchTerm := JsTrim(term.GetOr(""));
    if searchTerm != "" && !Offered(results, searchTerm) then [Item(searchTerm, searchTerm, true)] + results
    else results
  }

  /**
   * The reply's options all remain, in order, at the end; a non-blank term is
   * always offered afterwards; and the only new tag, if any, is the term, in
   * front, added only when no option matched it.
   */
  lemma ProcessResultsOffersTerm(reply: Option<ApiReply>, term: Option<string>)
    ensures var base := ProcessApiResults(reply);
      var t := JsTrim(term.GetOr(""));
      var r := ProcessResults(reply, term);
      |r| >= |base| && r[|r| - |base|..] == base &&
      (t != "" ==> Offered(r, t)) &&
      (forall k :: 0 <= k < |r| && r[k].newTag ==> k == 0 && r[k] == Item(t, t, true)) &&
      (|r| > |base| <==> t != "" && !Offered(base, t))
  {
    var base := ProcessApiResults(reply);
    var t := JsTrim(term.GetOr(""));
    var r := ProcessResults(reply, term);
    if t != "" && !Offered(base, t) {
      assert r[0] == Item(t, t, true);
      assert Lower(r[0].text) == Lower(t);
      forall k | 0 < k < |r| ensures !r[k].newTag {
        assert r[k] == base[k - 1];
      }
    }
  }
}
