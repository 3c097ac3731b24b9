/**
 * The selection logic of the set-editor page of the exercise tracker, as
 * values. An `Editor<S>` is everything the page's click handlers read and
 * write: the selected set (if any), whether the delete button is enabled,
 * the text on the add/update button, and the calls made so far on the set
 * list. `S` is the identity of an exercise set; the page compares sets with
 * `==`, which for the `ExerciseSet` class of module TrackerPager is
 * reference equality, as in the Java source.
 *
 * The functions below are the specification the `SetEditorPage` class of
 * module TrackerPager is proved against; the lemmas state what the page
 * promises over any sequence of clicks.
 */
module SetEditor {

  datatype Option<T> = None | Some(value: T)

  /** Text shown on the add/update button; before the first select or
      deselect it is whatever the page layout declares. */
  datatype ButtonLabel = LayoutLabel | AddLabel | UpdateLabel

  /** Calls the page makes on its set list (the set adapter), in order.
      A delete carries the selection as it was, which may in principle be
      empty; an update can only be issued with a set in hand. */
  datatype PortCall<S> =
    | Add(weight: real, reps: real)
    | Update(item: S, weight: real, reps: real)
    | Delete(target: Option<S>)
    | Highlight(item: S)
    | ClearHighlights

  datatype Editor<S> = Editor(
    selected: Option<S>,
    deleteEnabled: bool,
    buttonText: ButtonLabel,
    log: seq<PortCall<S>>)

  /** What the user can do on the page. The weight and reps are the values
      the two number choosers hold when the button is pressed. */
  datatype UiEvent<S> =
    | SetClicked(clicked: S)
    | AddUpdateClicked(weight: real, reps: real)
    | DeleteClicked

  /** The sets the list shows highlighted, reading `highlightSet` as
      "highlight this one" and `removeAllHighlights` as "highlight none";
      other calls are taken to leave highlighting alone. */
  function Highlighted<S(==)>(log: seq<PortCall<S>>): set<S>
  {
    if log == [] then {}
    else
      var prefix := log[..|log| - 1];
      match log[|log| - 1]
      case ClearHighlights => {}
      case Highlight(s) => Highlighted(prefix) + {s}
      case _ => Highlighted(prefix)
  }

  /** A store-changing call at index `i` is well placed: it names a set
      that was highlighted at that moment, and the very next call clears
      all highlights. */
  predicate WellPlaced<S(==)>(log: seq<PortCall<S>>, i: nat)
    requires i < |log|
  {
    match log[i]
    case Update(s, _, _) =>
      s in Highlighted(log[..i]) && i + 1 < |log| && log[i + 1] == ClearHighlights
    case Delete(t) =>
      t.Some? && t.value in Highlighted(log[..i]) && i + 1 < |log| && log[i + 1] == ClearHighlights
    case _ => true
  }

  predicate Disciplined<S(==)>(log: seq<PortCall<S>>)
  {
    forall i :: 0 <= i < |log| ==> WellPlaced(log, i)
  }

  /** The page invariant: the delete button is enabled, and the button reads
      "update", exactly when a set is selected; the selected set is
      highlighted and nothing is highlighted without a selection; every
      update or delete sent to the set list acted on a highlighted set and
      was followed by clearing the highlights. */
  predicate Consistent<S(==)>(e: Editor<S>)
  {
    (e.deleteEnabled <==> e.selected.Some?) &&
    (e.buttonText == UpdateLabel <==> e.selected.Some?) &&
    (match e.selected
     case None => Highlighted(e.log) == {}
     case Some(s) => s in Highlighted(e.log)) &&
    Disciplined(e.log)
  }

  /** The page as `setupButtons` leaves it: no selection, delete disabled. */
  function Initial<S>(): (e: Editor<S>)
    ensures e.selected.None? && !e.deleteEnabled && e.buttonText != UpdateLabel
    ensures e.log == [] && Highlighted(e.log) == {}
  {
    Editor(None, false, LayoutLabel, [])
  }

  /** `selectSet`: the set becomes the selection, delete is enabled, the
      button reads "update" and the set is highlighted. */
  function SelectSet<S(==)>(e: Editor<S>, s: S): (e': Editor<S>)
    ensures e'.selected == Some(s) && e'.deleteEnabled && e'.buttonText == UpdateLabel
    ensures Highlighted(e'.log) == Highlighted(e.log) + {s}
    ensures e'.log == e.log + [Highlight(s)]
  {
    var log' := e.log + [Highlight(s)];
    assert log'[..|log'| - 1] == e.log;
    Editor(Some(s), true, UpdateLabel, log')
  }

  /** `deselectSet`: delete is disabled, the button reads "add", all
      highlights are removed and the selection is cleared. */
  function DeselectSet<S(==)>(e: Editor<S>): (e': Editor<S>)
    ensures e'.selected.None? && !e'.deleteEnabled && e'.buttonText == AddLabel
    ensures Highlighted(e'.log) == {}
    ensures e'.log == e.log + [ClearHighlights]
  {
    Editor(None, false, AddLabel, e.log + [ClearHighlights])
  }

  /** `onSetHolderClicked`: clicking the selected set deselects it; clicking
      any other set, or any set with nothing selected, selects it. The set
      list is only asked to change highlights, never its contents. */
  function OnSetHolderClicked<S(==)>(e: Editor<S>, clicked: S): (e': Editor<S>)
    ensures e.selected == Some(clicked) ==>
      e'.selected.None? && !e'.deleteEnabled && e'.buttonText == AddLabel &&
      Highlighted(e'.log) == {} && e'.log == e.log + [ClearHighlights]
    ensures e.selected != Some(clicked) ==>
      e'.selected == Some(clicked) && e'.deleteEnabled && e'.buttonText == UpdateLabel &&
      clicked in Highlighted(e'.log) && e'.log == e.log + [Highlight(clicked)]
    ensures |e'.log| == |e.log| + 1 && e'.log[..|e.log|] == e.log
  {
    if e.selected == Some(clicked) then DeselectSet(e) else SelectSet(e, clicked)
  }

  /** `addExerciseSet`: the chooser values go to the set list as a new set;
      selection, buttons and highlights stay as they were. */
  function AddExerciseSet<S(==)>(e: Editor<S>, weight: real, reps: real): (e': Editor<S>)
    ensures e'.selected == e.selected && e'.deleteEnabled == e.deleteEnabled && e'.buttonText == e.buttonText
    ensures e'.log == e.log + [Add(weight, reps)]
    ensures Highlighted(e'.log) == Highlighted(e.log)
  {
    var log' := e.log + [Add(weight, reps)];
    assert log'[..|log'| - 1] == e.log;
    e.(log := log')
  }

  /** `updateExerciseSet`: the chooser values are written into the selected
      set, the set is sent to the set list, and then the page is deselected.
      The Java method dereferences the selection, so one must exist. */
  function UpdateExerciseSet<S(==)>(e: Editor<S>, weight: real, reps: real): (e': Editor<S>)
    requires e.selected.Some?
    ensures e'.selected.None? && !e'.deleteEnabled && e'.buttonText == AddLabel
    ensures Highlighted(e'.log) == {}
    ensures e'.log == e.log + [Update(e.selected.value, weight, reps), ClearHighlights]
  {
    DeselectSet(e.(log := e.log + [Update(e.selected.value, weight, reps)]))
  }

  /** `deleteSet`: the current selection is sent to the set list for
      deletion, then the page is deselected. */
  function DeleteSet<S(==)>(e: Editor<S>): (e': Editor<S>)
    ensures e'.selected.None? && !e'.deleteEnabled && e'.buttonText == AddLabel
    ensures Highlighted(e'.log) == {}
    ensures e'.log == e.log + [Delete(e.selected), ClearHighlights]
  {
    DeselectSet(e.(log := e.log + [Delete(e.selected)]))
  }

  /** The add/update button's listener: add when nothing is selected,
      update otherwise. */
  function OnAddUpdateClicked<S(==)>(e: Editor<S>, weight: real, reps: real): (e': Editor<S>)
    ensures e.selected.None? ==> e'.log == e.log + [Add(weight, reps)] && e'.selected.None?
    ensures e.selected.Some? ==>
      e'.log == e.log + [Update(e.selected.value, weight, reps), ClearHighlights] &&
      e'.selected.None? && !e'.deleteEnabled && e'.buttonText == AddLabel
  {
    if e.selected.None? then AddExerciseSet(e, weight, reps)
    else UpdateExerciseSet(e, weight, reps)
  }

  /** The delete button's listener. A disabled button delivers no clicks,
      so a click on it changes nothing. */
  function OnDeleteClicked<S(==)>(e: Editor<S>): (e': Editor<S>)
    ensures !e.deleteEnabled ==> e' == e
    ensures e.deleteEnabled ==>
      e'.log == e.log + [Delete(e.selected), ClearHighlights] && e'.selected.None?
  {
    if e.deleteEnabled then DeleteSet(e) else e
  }

  function Step<S(==)>(e: Editor<S>, ev: UiEvent<S>): Editor<S>
  {
    match ev
    case SetClicked(s) => OnSetHolderClicked(e, s)
    case AddUpdateClicked(w, r) => OnAddUpdateClicked(e, w, r)
    case DeleteClicked => OnDeleteClicked(e)
  }

  /** The page after the events happen one after another. */
  function Run<S(==)>(e: Editor<S>, evs: seq<UiEvent<S>>): Editor<S>
    decreases |evs|
  {
    if evs == [] then e else Run(Step(e, evs[0]), evs[1..])
  }

  // ----- Lemmas -----

  /** Appending a call that changes nothing in the store keeps the log
      disciplined. */
  lemma {:induction false} DisciplinedSnoc<S>(log: seq<PortCall<S>>, c: PortCall<S>)
    requires Disciplined(log)
    requires !c.Update? && !c.Delete?
    ensures Disciplined(log + [c])
  {
    var log' := log + [c];
    forall i | 0 <= i < |log'|
      ensures WellPlaced(log', i)
    {
      if i < |log| {
        assert WellPlaced(log, i);
        assert log'[..i] == log[..i];
      }
    }
  }

  /** Appending an update or delete of a highlighted set, followed by
      clearing the highlights, keeps the log disciplined. */
  lemma {:induction false} DisciplinedMutation<S>(log: seq<PortCall<S>>, c: PortCall<S>)
    requires Disciplined(log)
    requires (c.Update? && c.item in Highlighted(log)) ||
             (c.Delete? && c.target.Some? && c.target.value in Highlighted(log))
    ensures Disciplined(log + [c, ClearHighlights])
  {
    var log' := log + [c, ClearHighlights];
    forall i | 0 <= i < |log'|
      ensures WellPlaced(log', i)
    {
      if i < |log| {
        assert WellPlaced(log, i);
        assert log'[..i] == log[..i];
      } else if i == |log| {
        assert log'[..i] == log;
      }
    }
  }

  /** Every click keeps the page invariant. In particular a click on the
      delete button reaches the set list only with a set selected, so the
      set list is never asked to delete nothing. */
  lemma StepPreservesConsistent<S>(e: Editor<S>, ev: UiEvent<S>)
    requires Consistent(e)
    ensures Consistent(Step(e, ev))
  {
    match ev
    case SetClicked(s) =>
      if e.selected == Some(s) {
        DisciplinedSnoc(e.log, ClearHighlights);
      } else {
        DisciplinedSnoc(e.log, Highlight(s));
      }
    case AddUpdateClicked(w, r) =>
      if e.selected.None? {
        DisciplinedSnoc(e.log, Add(w, r));
      } else {
        DisciplinedMutation(e.log, Update(e.selected.value, w, r));
      }
    case DeleteClicked =>
      if e.deleteEnabled {
        DisciplinedMutation(e.log, Delete(e.selected));
      }
  }

  /** The invariant holds after any sequence of clicks. */
  lemma {:induction false} RunPreservesConsistent<S>(e: Editor<S>, evs: seq<UiEvent<S>>)
    requires Consistent(e)
    ensures Consistent(Run(e, evs))
    decreases |evs|
  {
    if evs != [] {
      StepPreservesConsistent(e, evs[0]);
      RunPreservesConsistent(Step(e, evs[0]), evs[1..]);
    }
  }

  /** Whatever the user does on a freshly set-up page, the delete button is
      enabled exactly when a set is selected, the button reads "update"
      exactly then, and every update or delete the set list received named
      a highlighted (selected) set and was followed by clearing highlights. */
  lemma Reachable<S>(evs: seq<UiEvent<S>>)
    ensures var e := Run(Initial<S>(), evs);
      (e.deleteEnabled <==> e.selected.Some?) &&
      (e.buttonText == UpdateLabel <==> e.selected.Some?) &&
      Disciplined(e.log)
  {
    assert Disciplined(Initial<S>().log);
    RunPreservesConsistent(Initial<S>(), evs);
  }

  /** Clicking the same set twice, starting from any selection other than
      that set (in particular none), ends with no selection, delete disabled
      and nothing highlighted; the set list only saw highlight changes. */
  lemma ClickTwiceDeselects<S>(e: Editor<S>, s: S)
    requires e.selected != Some(s)
    ensures var e' := Run(e, [SetClicked(s), SetClicked(s)]);
      e'.selected.None? && !e'.deleteEnabled && e'.buttonText == AddLabel &&
      Highlighted(e'.log) == {} &&
      e'.log == e.log + [Highlight(s), ClearHighlights]
  {
    var evs := [SetClicked(s), SetClicked(s)];
    var e1 := Step(e, evs[0]);
    assert e1.selected == Some(s);
    assert evs[1..] == [SetClicked(s)] && evs[1..][1..] == [];
    assert Run(e, evs) == Run(e1, evs[1..]) == Run(Step(e1, SetClicked(s)), []);
  }

  /** The calls a run sends to the set list extend the calls already made:
      nothing is ever taken back. */
  lemma {:induction false} RunExtendsLog<S>(e: Editor<S>, evs: seq<UiEvent<S>>)
    ensures |Run(e, evs).log| >= |e.log| && Run(e, evs).log[..|e.log|] == e.log
    decreases |evs|
  {
    if evs != [] {
      var e1 := Step(e, evs[0]);
      assert |e1.log| >= |e.log| && e1.log[..|e.log|] == e.log;
      RunExtendsLog(e1, evs[1..]);
      assert Run(e1, evs[1..]).log[..|e1.log|][..|e.log|] == Run(e1, evs[1..]).log[..|e.log|];
    }
  }

  /** Only the add/update and delete buttons reach the store: clicks on set
      rows send nothing but highlight changes. */
  lemma {:induction false} ClicksOnlyHighlight<S>(e: Editor<S>, evs: seq<UiEvent<S>>)
    requires forall k :: 0 <= k < |evs| ==> evs[k].SetClicked?
    ensures var log := Run(e, evs).log;
      |log| == |e.log| + |evs| &&
      forall i :: |e.log| <= i < |log| ==> log[i].Highlight? || log[i].ClearHighlights?
    decreases |evs|
  {
    if evs != [] {
      var e1 := Step(e, evs[0]);
      assert forall k :: 0 <= k < |evs[1..]| ==> evs[1..][k] == evs[k + 1];
      ClicksOnlyHighlight(e1, evs[1..]);
      RunExtendsLog(e1, evs[1..]);
      var log := Run(e, evs).log;
      assert log == Run(e1, evs[1..]).log;
      forall i | |e.log| <= i < |log|
        ensures log[i].Highlight? || log[i].ClearHighlights?
      {
        if i == |e.log| {
          assert log[i] == log[..|e1.log|][i] == e1.log[i];
        }
      }
    }
  }
}
