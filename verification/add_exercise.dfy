/**
 * The screen on which the user drills down from a category to an exercise
 * before the tracker opens. The screen holds one list view whose adapter is
 * swapped between a category adapter and an exercise adapter; the back
 * button compares the shown adapter with the exercise adapter by reference.
 * Each background load is modelled by its completion alone, one atomic
 * event that carries the list the repository returned.
 */
module AddExercise {

  datatype Category = Category(id: int, name: string)

  datatype Exercise = Exercise(id: int, categoryId: int, name: string)

  /** A calendar date, passed through unchanged. */
  datatype Date = Date(year: int, month: int, day: int)

  /** A background load the screen has started. */
  datatype Load = CategoriesLoad | ExercisesLoad(category: Category)

  /** Whether the screen is still up, or how it ended: by opening the
      tracker for an exercise on a date, or by the system's back action. */
  datatype Status = Open | OpenedTracker(exercise: Exercise, date: Date) | ClosedByBack

  /** What the list view displays. */
  datatype Showing = Blank | CategoryList(categories: seq<Category>) | ExerciseList(exercises: seq<Exercise>)

  class CategorySelectionAdapter {
    var categories: seq<Category>

    constructor (categories: seq<Category>)
      ensures this.categories == categories
    {
      this.categories := categories;
    }

    method SetCategories(categories: seq<Category>)
      modifies this
      ensures this.categories == categories
    {
      this.categories := categories;
    }
  }

  class ExerciseSelectionAdapter {
    const exercises: seq<Exercise>

    constructor (exercises: seq<Exercise>)
      ensures this.exercises == exercises
    {
      this.exercises := exercises;
    }
  }

  class AddExerciseActivity {
    /** The adapter the list view currently shows (none at first). */
    var shown: object?
    var categorySelectionAdapter: CategorySelectionAdapter?
    var exerciseSelectionAdapter: ExerciseSelectionAdapter?
    var categories: seq<Category>
    var exercises: seq<Exercise>
    var currentDate: Date
    var status: Status
    /** Every load started, in order, and those not yet completed. */
    ghost var issued: seq<Load>
    ghost var pending: multiset<Load>

    ghost predicate Valid()
      reads this, categorySelectionAdapter
    {
      (shown == null || shown == categorySelectionAdapter || shown == exerciseSelectionAdapter) &&
      (categorySelectionAdapter != null ==> categorySelectionAdapter.categories == categories) &&
      (exerciseSelectionAdapter != null ==> exerciseSelectionAdapter.exercises == exercises) &&
      pending <= multiset(issued)
    }

    function Showing(): Showing
      reads this
    {
      if shown == null then Blank
      else if shown == exerciseSelectionAdapter then ExerciseList(exercises)
      else CategoryList(categories)
    }

    /** `onCreate` with `getDataFromIntent`: the date comes from the intent
        that opened the screen, the list view starts empty, and exactly one
        load, of the categories, is started. */
    constructor (intentDate: Date)
      ensures Valid() && status == Open && currentDate == intentDate
      ensures shown == null && categorySelectionAdapter == null && exerciseSelectionAdapter == null
      ensures Showing() == Blank
      ensures issued == [CategoriesLoad] && pending == multiset{CategoriesLoad}
    {
      currentDate := intentDate;
      shown := null;
      categorySelectionAdapter := null;
      exerciseSelectionAdapter := null;
      categories := [];
      exercises := [];
      status := Open;
      issued := [CategoriesLoad];
      pending := multiset{CategoriesLoad};
    }

    /** A category row was clicked: a load of that category's exercises is
        started, and nothing else changes until it completes. */
    method OnCategoryHolderSelected(category: Category)
      requires Valid() && status == Open
      modifies this
      ensures Valid()
      ensures issued == old(issued) + [ExercisesLoad(category)]
      ensures pending == old(pending) + multiset{ExercisesLoad(category)}
      ensures shown == old(shown) && status == old(status) && currentDate == old(currentDate)
      ensures categorySelectionAdapter == old(categorySelectionAdapter)
      ensures exerciseSelectionAdapter == old(exerciseSelectionAdapter)
      ensures categories == old(categories) && exercises == old(exercises)
    {
      issued := issued + [ExercisesLoad(category)];
      pending := pending + multiset{ExercisesLoad(category)};
    }

    /** An exercise row was clicked: the tracker opens for that exercise on
        the screen's date and this screen finishes. */
    method OnExerciseHolderSelected(exercise: Exercise)
      requires Valid() && status == Open
      modifies this
      ensures Valid()
      ensures status == OpenedTracker(exercise, currentDate)
      ensures currentDate == old(currentDate) && shown == old(shown)
      ensures categorySelectionAdapter == old(categorySelectionAdapter)
      ensures exerciseSelectionAdapter == old(exerciseSelectionAdapter)
      ensures categories == old(categories) && exercises == old(exercises)
      ensures issued == old(issued) && pending == old(pending)
    {
      status := OpenedTracker(exercise, currentDate);
    }

    /** The category load completed with `loaded`. The first completion
        creates the category adapter and shows it; a later one keeps the
        same adapter, only replaces its categories and leaves the shown
        adapter alone. */
    method OnCategoriesLoaded(loaded: seq<Category>)
      requires Valid() && CategoriesLoad in pending
      modifies this, categorySelectionAdapter
      ensures Valid()
      ensures categories == loaded && categorySelectionAdapter != null
      ensures categorySelectionAdapter.categories == loaded
      ensures old(categorySelectionAdapter) == null ==>
        fresh(categorySelectionAdapter) && shown == categorySelectionAdapter && Showing() == CategoryList(loaded)
      ensures old(categorySelectionAdapter) != null ==>
        categorySelectionAdapter == old(categorySelectionAdapter) && shown == old(shown)
      ensures pending == old(pending) - multiset{CategoriesLoad} && issued == old(issued)
      ensures exerciseSelectionAdapter == old(exerciseSelectionAdapter) && exercises == old(exercises)
      ensures status == old(status) && currentDate == old(currentDate)
    {
      categories := loaded;
      if categorySelectionAdapter == null {
        categorySelectionAdapter := new CategorySelectionAdapter(categories);
        shown := categorySelectionAdapter;
      } else {
        categorySelectionAdapter.SetCategories(categories);
      }
      pending := pending - multiset{CategoriesLoad};
    }

    /** A load of `category`'s exercises completed with `loaded`: a fresh
        exercise adapter over the loaded list replaces whatever was shown.
        Nothing checks whether a newer category was chosen meanwhile. */
    method OnExercisesLoaded(category: Category, loaded: seq<Exercise>)
      requires Valid() && ExercisesLoad(category) in pending
      modifies this
      ensures Valid()
      ensures exercises == loaded && exerciseSelectionAdapter != null
      ensures fresh(exerciseSelectionAdapter) && exerciseSelectionAdapter.exercises == loaded
      ensures shown == exerciseSelectionAdapter && Showing() == ExerciseList(loaded)
      ensures pending == old(pending) - multiset{ExercisesLoad(category)} && issued == old(issued)
      ensures categorySelectionAdapter == old(categorySelectionAdapter) && categories == old(categories)
      ensures status == old(status) && currentDate == old(currentDate)
    {
      exercises := loaded;
      exerciseSelectionAdapter := new ExerciseSelectionAdapter(exercises);
      shown := exerciseSelectionAdapter;
      pending := pending - multiset{ExercisesLoad(category)};
    }

    /** Back while the shown adapter is the exercise adapter switches the
        list view to the category adapter and stays on the screen; in every
        other case the screen closes. The comparison is by reference, so
        before any list is shown (both references empty) back also stays. */
    method OnBackPressed()
      requires Valid() && status == Open
      modifies this
      ensures Valid()
      ensures old(shown) == old(exerciseSelectionAdapter) ==>
        shown == categorySelectionAdapter && status == Open
      ensures old(shown) != old(exerciseSelectionAdapter) ==>
        shown == old(shown) && status == ClosedByBack
      ensures categorySelectionAdapter == old(categorySelectionAdapter)
      ensures exerciseSelectionAdapter == old(exerciseSelectionAdapter)
      ensures categories == old(categories) && exercises == old(exercises)
      ensures currentDate == old(currentDate) && issued == old(issued) && pending == old(pending)
    {
      if shown == exerciseSelectionAdapter {
        shown := categorySelectionAdapter;
      } else {
        status := ClosedByBack;
      }
    }
  }

  // ----- Whole-screen properties, stated as runs of the screen -----

  /** Back from an exercise list returns to the full category list without
      leaving; a second back leaves the screen. */
  method BackFromExercises(date: Date, cats: seq<Category>, c: Category, exs: seq<Exercise>)
    returns (afterFirst: Showing, statusAfterFirst: Status, statusAfterSecond: Status)
    ensures afterFirst == CategoryList(cats) && statusAfterFirst == Open
    ensures statusAfterSecond == ClosedByBack
  {
    var screen := new AddExerciseActivity(date);
    screen.OnCategoriesLoaded(cats);
    screen.OnCategoryHolderSelected(c);
    screen.OnExercisesLoaded(c, exs);
    screen.OnBackPressed();
    afterFirst, statusAfterFirst := screen.Showing(), screen.status;
    screen.OnBackPressed();
    statusAfterSecond := screen.status;
  }

  /** Back pressed before the category list has arrived does not leave the
      screen: the list view shows no adapter, which is also what the
      (not yet created) exercise adapter field holds. */
  method BackBeforeCategoriesArrive(date: Date) returns (showing: Showing, status: Status)
    ensures showing == Blank && status == Open
  {
    var screen := new AddExerciseActivity(date);
    screen.OnBackPressed();
    showing, status := screen.Showing(), screen.status;
  }

  /** Choosing a category and then an exercise opens the tracker for that
      exercise on the date the screen was opened with. */
  method ChooseExercise(date: Date, cats: seq<Category>, c: Category, exs: seq<Exercise>, e: Exercise)
    returns (status: Status)
    ensures status == OpenedTracker(e, date)
  {
    var screen := new AddExerciseActivity(date);
    screen.OnCategoriesLoaded(cats);
    screen.OnCategoryHolderSelected(c);
    screen.OnExercisesLoaded(c, exs);
    screen.OnExerciseHolderSelected(e);
    status := screen.status;
  }

  /** Two categories chosen in a row, with the first one's load finishing
      last: the list shown is the first category's exercises. The completion
      handler does not compare a load with the latest choice, so whichever
      completion is delivered last decides the list. The model lets the two
      completions arrive in either order; whether the background tasks can
      in fact finish out of order depends on how the platform schedules
      them, which is not part of this model. */
  method LastCompletionWins(date: Date, cats: seq<Category>, a: Category, b: Category,
                            fromA: seq<Exercise>, fromB: seq<Exercise>)
    returns (showing: Showing)
    ensures showing == ExerciseList(fromA)
  {
    var screen := new AddExerciseActivity(date);
    screen.OnCategoriesLoaded(cats);
    screen.OnCategoryHolderSelected(a);
    screen.OnCategoryHolderSelected(b);
    screen.OnExercisesLoaded(b, fromB);
    screen.OnExercisesLoaded(a, fromA);
    showing := screen.Showing();
  }
}
