/**
 * The two-page tracker pager and its set-editor page, as objects whose
 * fields the click handlers update in place. The set list (the set adapter)
 * and the history list are ports: they only record the calls they receive.
 * Every handler of `SetEditorPage` is proved to change the page exactly as
 * the matching function of module SetEditor says, so the lemmas proved
 * there hold of the page.
 */
module TrackerPager {
  import SetEditor

  /** A recorded set. Identity is the object reference; the two
      measurements are rewritten in place by an update. */
  class ExerciseSet {
    var measurement1: real
    var measurement2: real

    constructor (weight: real, reps: real)
      ensures measurement1 == weight && measurement2 == reps
    {
      measurement1 := weight;
      measurement2 := reps;
    }
  }

  function AsOption(s: ExerciseSet?): (o: SetEditor.Option<ExerciseSet>)
    ensures o.None? <==> s == null
    ensures o.Some? ==> o.value == s
  {
    if s == null then SetEditor.None else var t: ExerciseSet := s; SetEditor.Some(t)
  }

  /** The set adapter of the editor page, seen only through the calls the
      page makes on it. */
  class SetListPort {
    ghost var log: seq<SetEditor.PortCall<ExerciseSet>>

    constructor ()
      ensures log == []
    {
      log := [];
    }

    method AddSet(weight: real, reps: real)
      modifies this
      ensures log == old(log) + [SetEditor.Add(weight, reps)]
    {
      log := log + [SetEditor.Add(weight, reps)];
    }

    /** Receives the set object itself; what is recorded is the set and the
        measurements it holds at the moment of the call. */
    method UpdateSet(s: ExerciseSet)
      modifies this
      ensures log == old(log) + [SetEditor.Update(s, s.measurement1, s.measurement2)]
    {
      log := log + [SetEditor.Update(s, s.measurement1, s.measurement2)];
    }

    method DeleteSet(s: ExerciseSet?)
      modifies this
      ensures log == old(log) + [SetEditor.Delete(AsOption(s))]
    {
      log := log + [SetEditor.Delete(AsOption(s))];
    }

    method HighlightSet(s: ExerciseSet)
      modifies this
      ensures log == old(log) + [SetEditor.Highlight(s)]
    {
      log := log + [SetEditor.Highlight(s)];
    }

    method RemoveAllHighlights()
      modifies this
      ensures log == old(log) + [SetEditor.ClearHighlights]
    {
      log := log + [SetEditor.ClearHighlights];
    }
  }

  /** The page for adding, updating and deleting the sets of one exercise
      on one date. */
  class SetEditorPage {
    var selectedSet: ExerciseSet?
    var deleteEnabled: bool
    var buttonText: SetEditor.ButtonLabel
    const trackerSetAdapter: SetListPort

    /** The page as a value of the specification. */
    ghost function State(): SetEditor.Editor<ExerciseSet>
      reads this, trackerSetAdapter
    {
      SetEditor.Editor(AsOption(selectedSet), deleteEnabled, buttonText, trackerSetAdapter.log)
    }

    ghost predicate Valid()
      reads this, trackerSetAdapter
    {
      SetEditor.Consistent(State())
    }

    /** The constructor with `setupButtons`: nothing selected, the delete
        button disabled, a fresh set list that has received no calls. */
    constructor ()
      ensures State() == SetEditor.Initial() && Valid()
      ensures fresh(trackerSetAdapter)
    {
      selectedSet := null;
      deleteEnabled := false;
      buttonText := SetEditor.LayoutLabel;
      trackerSetAdapter := new SetListPort();
      new;
      assert SetEditor.Disciplined(trackerSetAdapter.log);
    }

    /** The add/update button's listener; `weight` and `reps` are the
        values the number choosers hold. An update writes them into the
        selected set object before it is passed on. */
    method OnAddUpdateClicked(weight: real, reps: real)
      requires Valid()
      modifies this, trackerSetAdapter, selectedSet
      ensures Valid()
      ensures State() == SetEditor.OnAddUpdateClicked(old(State()), weight, reps)
      ensures old(selectedSet) != null ==>
        old(selectedSet).measurement1 == weight && old(selectedSet).measurement2 == reps
    {
      ghost var before := State();
      SetEditor.StepPreservesConsistent(before, SetEditor.AddUpdateClicked(weight, reps));
      if selectedSet == null {
        AddExerciseSet(weight, reps);
      } else {
        UpdateExerciseSet(weight, reps);
      }
    }

    /** The delete button's listener. The button delivers clicks only
        while it is enabled. */
    method OnDeleteClicked()
      requires Valid()
      modifies this, trackerSetAdapter
      ensures Valid()
      ensures State() == SetEditor.OnDeleteClicked(old(State()))
    {
      SetEditor.StepPreservesConsistent(State(), SetEditor.DeleteClicked);
      if deleteEnabled {
        DeleteSet();
      }
    }

    method AddExerciseSet(weight: real, reps: real)
      modifies trackerSetAdapter
      ensures State() == SetEditor.AddExerciseSet(old(State()), weight, reps)
    {
      trackerSetAdapter.AddSet(weight, reps);
    }

    method UpdateExerciseSet(weight: real, reps: real)
      requires selectedSet != null
      modifies this, trackerSetAdapter, selectedSet
      ensures State() == SetEditor.UpdateExerciseSet(old(State()), weight, reps)
      ensures old(selectedSet).measurement1 == weight && old(selectedSet).measurement2 == reps
    {
      selectedSet.measurement1 := weight;
      selectedSet.measurement2 := reps;
      trackerSetAdapter.UpdateSet(selectedSet);
      DeselectSet();
    }

    method DeleteSet()
      modifies this, trackerSetAdapter
      ensures State() == SetEditor.DeleteSet(old(State()))
    {
      trackerSetAdapter.DeleteSet(selectedSet);
      DeselectSet();
    }

    /** The set list's click callback: a click on the selected set (the
        same object) deselects it, any other click selects the clicked set. */
    method OnSetHolderClicked(clickedSet: ExerciseSet)
      requires Valid()
      modifies this, trackerSetAdapter
      ensures Valid()
      ensures State() == SetEditor.OnSetHolderClicked(old(State()), clickedSet)
    {
      SetEditor.StepPreservesConsistent(State(), SetEditor.SetClicked(clickedSet));
      if selectedSet == clickedSet {
        DeselectSet();
      } else {
        SelectSet(clickedSet);
      }
    }

    method DeselectSet()
      modifies this, trackerSetAdapter
      ensures State() == SetEditor.DeselectSet(old(State()))
    {
      deleteEnabled := false;
      buttonText := SetEditor.AddLabel;
      trackerSetAdapter.RemoveAllHighlights();
      selectedSet := null;
    }

    method SelectSet(s: ExerciseSet)
      modifies this, trackerSetAdapter
      ensures State() == SetEditor.SelectSet(old(State()), s)
    {
      selectedSet := s;
      deleteEnabled := true;
      buttonText := SetEditor.UpdateLabel;
      trackerSetAdapter.HighlightSet(s);
    }
  }

  /** The history adapter, seen only through its refresh requests. */
  class HistoryPort {
    ghost var refreshes: nat

    constructor ()
      ensures refreshes == 0
    {
      refreshes := 0;
    }

    method Refresh()
      modifies this
      ensures refreshes == old(refreshes) + 1
    {
      refreshes := refreshes + 1;
    }
  }

  class HistoryPage {
    const setHistoryAdapter: HistoryPort

    constructor ()
      ensures fresh(setHistoryAdapter) && setHistoryAdapter.refreshes == 0
    {
      setHistoryAdapter := new HistoryPort();
    }

    method Refresh()
      modifies setHistoryAdapter
      ensures setHistoryAdapter.refreshes == old(setHistoryAdapter.refreshes) + 1
    {
      setHistoryAdapter.Refresh();
    }
  }

  datatype PageKind = SetEditorKind | HistoryKind

  /** The string resource a page title comes from. */
  datatype PageTitle = TrackerPageTitle1 | TrackerPageTitle2

  /** `getCount`: the pager always has two pages. */
  const PAGE_COUNT: int := 2

  /** The page `instantiateItem` builds at a position: the set editor at
      position 0 and the history page anywhere else. */
  function PageFor(position: int): (k: PageKind)
    ensures k == SetEditorKind <==> position == 0
  {
    if position == 0 then SetEditorKind else HistoryKind
  }

  /** `getPageTitle`: the first title belongs to exactly the position at
      which the editor page is built. */
  function TitleFor(position: int): (t: PageTitle)
    ensures t == TrackerPageTitle1 <==> PageFor(position) == SetEditorKind
  {
    if position == 0 then TrackerPageTitle1 else TrackerPageTitle2
  }

  /** The positions the pager shows hold the two pages, one each. */
  lemma PagesCoverKinds(k: PageKind)
    ensures exists position :: 0 <= position < PAGE_COUNT && PageFor(position) == k
    ensures forall i, j :: 0 <= i < PAGE_COUNT && 0 <= j < PAGE_COUNT && PageFor(i) == PageFor(j) ==> i == j
  {
    if k == SetEditorKind {
      assert PageFor(0) == k;
    } else {
      assert PageFor(1) == k;
    }
  }

  /** What `instantiateItem` returns. */
  datatype PageObject = EditorPage(editor: SetEditorPage) | HistoryPageObject(history: HistoryPage)
  {
    function Kind(): PageKind
    {
      if EditorPage? then SetEditorKind else HistoryKind
    }
  }

  class TrackerPagerAdapter {
    var setEditorPage: SetEditorPage?
    var historyPage: HistoryPage?
    const currentDate: string
    const exerciseName: string

    constructor (currentDate: string, exerciseName: string)
      ensures this.currentDate == currentDate && this.exerciseName == exerciseName
      ensures setEditorPage == null && historyPage == null
    {
      this.currentDate := currentDate;
      this.exerciseName := exerciseName;
      setEditorPage := null;
      historyPage := null;
    }

    /** Builds the page for a position and remembers it; the other page
        field is left alone. */
    method InstantiateItem(position: int) returns (page: PageObject)
      modifies this
      ensures page.Kind() == PageFor(position)
      ensures position == 0 ==>
        setEditorPage != null && page == EditorPage(setEditorPage) && fresh(setEditorPage) &&
        setEditorPage.Valid() && setEditorPage.State() == SetEditor.Initial() &&
        historyPage == old(historyPage)
      ensures position != 0 ==>
        historyPage != null && page == HistoryPageObject(historyPage) && fresh(historyPage) &&
        fresh(historyPage.setHistoryAdapter) && historyPage.setHistoryAdapter.refreshes == 0 &&
        setEditorPage == old(setEditorPage)
    {
      if position == 0 {
        setEditorPage := new SetEditorPage();
        page := EditorPage(setEditorPage);
      } else {
        historyPage := new HistoryPage();
        page := HistoryPageObject(historyPage);
      }
    }

    /** `loadHistoryPage` only asks the history page to refresh. It
        dereferences the history page, so that page must have been built. */
    method LoadHistoryPage()
      requires historyPage != null
      modifies historyPage.setHistoryAdapter
      ensures historyPage.setHistoryAdapter.refreshes == old(historyPage.setHistoryAdapter.refreshes) + 1
    {
      historyPage.Refresh();
    }
  }
}
