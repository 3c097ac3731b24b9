# Workout tracker: set-editor selection and category drill-down, in Dafny

This project models two small state machines of the Android workout tracker.

The first is the **set-editor page** of the tracker pager (`TrackerPagerAdapter.SetEditorPage`). The user records sets (weight × reps) for one exercise on one date. Clicking a set row selects it for editing, or deselects it if it is already selected. The add/update button adds a new set when nothing is selected and updates the selected set otherwise. The delete button deletes the selected set. The page keeps three things in step with the selection: whether the delete button is enabled, the text of the add/update button, and the highlighted rows of the set list.

The second is the **add-exercise screen** (`AddExerciseActivity`). It shows the categories. Choosing one loads that category's exercises into the same list view, and choosing an exercise opens the tracker for it on the screen's date. The back button returns from the exercise list to the category list.

## Structure

- `set_editor.dfy`, module `SetEditor`: the set-editor page as a value.
  - `Editor<S>` holds the selection, the delete button's enabled flag, the button text and the log of calls sent to the set list.
  - There is one function per handler of the page.
  - `Run` folds a sequence of user events over the page.
  - `Consistent` is the page invariant, with lemmas proving that every event keeps it.
  - `S` is the identity of a set; the page compares sets with `==`.
- `tracker_pager.dfy`, module `TrackerPager`: the Java objects as classes.
  - `ExerciseSet` is a set whose two measurements are rewritten in place. Its identity is the object reference.
  - `SetListPort` and `HistoryPort` stand for the set adapter and the history adapter. Each records the calls it receives in a ghost field.
  - `SetEditorPage` is the page itself. Each handler is proved to change the page exactly as the matching `SetEditor` function does (`State()` maps the object to an `Editor`).
  - `TrackerPagerAdapter` builds its two pages and delegates the history refresh.
- `add_exercise.dfy`, module `AddExercise`: the add-exercise screen as a class.
  - The two adapters are objects, and the list view's current adapter is an `object?` field, so the back button's reference comparison is modelled exactly.
  - Each background load is one atomic completion event that carries the loaded list. A ghost multiset records the loads started and not yet completed.
  - Four client methods state whole-screen properties as runs of the screen.

## Model

| member | source | states |
|---|---|---|
| SetEditor.Initial | app/src/main/java/com/armpatch/android/workouttracker/adapters/TrackerPagerAdapter.java:119-128 | After set-up nothing is selected, delete is disabled, and the set list has received no calls. The button shows the layout's text, assumed not to be "update" (see Left out). |
| SetEditor.SelectSet | app/src/main/java/com/armpatch/android/workouttracker/adapters/TrackerPagerAdapter.java:179-187 | Selecting a set makes it the selection, enables delete, sets the button to "update" and adds that set to the highlighted sets. |
| SetEditor.DeselectSet | app/src/main/java/com/armpatch/android/workouttracker/adapters/TrackerPagerAdapter.java:171-177 | Deselecting disables delete, sets the button to "add", leaves no set highlighted and clears the selection. |
| SetEditor.OnSetHolderClicked | app/src/main/java/com/armpatch/android/workouttracker/adapters/TrackerPagerAdapter.java:162-169 | Clicking the selected set (same identity) deselects it: delete disabled, button at "add", one clear of all highlights sent. Clicking any other set, or any set with nothing selected, selects it: delete enabled, button at "update", one highlight of that set sent. Nothing else is sent to the set list. |
| SetEditor.AddExerciseSet | app/src/main/java/com/armpatch/android/workouttracker/adapters/TrackerPagerAdapter.java:139-144 | The chooser values go to the set list as one add. Selection, buttons and highlights are unchanged. |
| SetEditor.UpdateExerciseSet | app/src/main/java/com/armpatch/android/workouttracker/adapters/TrackerPagerAdapter.java:146-155 | The selected set is sent as an update with the chooser values, then highlights are cleared. Afterwards there is no selection, delete is disabled and the button reads "add". |
| SetEditor.DeleteSet | app/src/main/java/com/armpatch/android/workouttracker/adapters/TrackerPagerAdapter.java:157-160 | The selection is sent for deletion, then highlights are cleared. Afterwards there is no selection, delete is disabled and the button reads "add". |
| SetEditor.OnAddUpdateClicked | app/src/main/java/com/armpatch/android/workouttracker/adapters/TrackerPagerAdapter.java:121-123 | With no selection the button adds the chooser values. With a selection it updates that set and ends deselected. |
| SetEditor.OnDeleteClicked | app/src/main/java/com/armpatch/android/workouttracker/adapters/TrackerPagerAdapter.java:125-127 | A click on the disabled button changes nothing. An enabled click deletes the selection and ends deselected. |
| SetEditor.StepPreservesConsistent | app/src/main/java/com/armpatch/android/workouttracker/adapters/TrackerPagerAdapter.java:119-187 | Every click keeps the invariant. Delete is enabled, and the button reads "update", exactly when a set is selected. The selection is highlighted, and nothing is highlighted without one. Every update or delete sent names a highlighted set and is followed by clearing highlights, so delete is never sent without a set. |
| SetEditor.RunPreservesConsistent | app/src/main/java/com/armpatch/android/workouttracker/adapters/TrackerPagerAdapter.java:119-187 | The invariant holds after any sequence of clicks. |
| SetEditor.Reachable | app/src/main/java/com/armpatch/android/workouttracker/adapters/TrackerPagerAdapter.java:121-182 | From the freshly set-up page, after any clicks, delete is enabled exactly when a set is selected, and so is the "update" text, given the layout assumption under Left out. Every update or delete reached the set list only with a selection and was followed by clearing highlights. |
| SetEditor.ClickTwiceDeselects | app/src/main/java/com/armpatch/android/workouttracker/adapters/TrackerPagerAdapter.java:163-176 | Clicking the same set twice, from any selection other than that set (including none), ends with no selection, delete disabled, the button at "add" and nothing highlighted. |
| SetEditor.ClicksOnlyHighlight | app/src/main/java/com/armpatch/android/workouttracker/adapters/TrackerPagerAdapter.java:162-187 | Any number of row clicks sends the set list one call each, and every such call is a highlight or a highlight clear, never a store change. |
| TrackerPager.SetListPort.AddSet | app/src/main/java/com/armpatch/android/workouttracker/adapters/TrackerPagerAdapter.java:143 | The set list records one add with the given weight and reps. |
| TrackerPager.SetListPort.UpdateSet | app/src/main/java/com/armpatch/android/workouttracker/adapters/TrackerPagerAdapter.java:153 | The set list records an update of that set object with the measurements it holds at the call. |
| TrackerPager.SetListPort.DeleteSet | app/src/main/java/com/armpatch/android/workouttracker/adapters/TrackerPagerAdapter.java:158 | The set list records a delete of the given, possibly null, set. |
| TrackerPager.SetListPort.HighlightSet | app/src/main/java/com/armpatch/android/workouttracker/adapters/TrackerPagerAdapter.java:185 | The set list records a highlight of the set. |
| TrackerPager.SetListPort.RemoveAllHighlights | app/src/main/java/com/armpatch/android/workouttracker/adapters/TrackerPagerAdapter.java:175 | The set list records a clear of all highlights. |
| TrackerPager.SetEditorPage.constructor | app/src/main/java/com/armpatch/android/workouttracker/adapters/TrackerPagerAdapter.java:96-137 | The new page is in the initial editor state with a fresh set list, and the invariant holds. |
| TrackerPager.SetEditorPage.OnAddUpdateClicked | app/src/main/java/com/armpatch/android/workouttracker/adapters/TrackerPagerAdapter.java:121-123 | Changes the page as `SetEditor.OnAddUpdateClicked` and keeps the invariant. On an update, the selected set object now holds the chooser weight and reps. |
| TrackerPager.SetEditorPage.OnDeleteClicked | app/src/main/java/com/armpatch/android/workouttracker/adapters/TrackerPagerAdapter.java:125-127 | Changes the page as `SetEditor.OnDeleteClicked` and keeps the invariant. |
| TrackerPager.SetEditorPage.AddExerciseSet | app/src/main/java/com/armpatch/android/workouttracker/adapters/TrackerPagerAdapter.java:139-144 | Changes the page as `SetEditor.AddExerciseSet`. |
| TrackerPager.SetEditorPage.UpdateExerciseSet | app/src/main/java/com/armpatch/android/workouttracker/adapters/TrackerPagerAdapter.java:146-155 | Writes the weight and reps into the selected set object, then changes the page as `SetEditor.UpdateExerciseSet`. |
| TrackerPager.SetEditorPage.DeleteSet | app/src/main/java/com/armpatch/android/workouttracker/adapters/TrackerPagerAdapter.java:157-160 | Changes the page as `SetEditor.DeleteSet`. |
| TrackerPager.SetEditorPage.OnSetHolderClicked | app/src/main/java/com/armpatch/android/workouttracker/adapters/TrackerPagerAdapter.java:162-169 | Compares by reference and changes the page as `SetEditor.OnSetHolderClicked`, keeping the invariant. |
| TrackerPager.SetEditorPage.DeselectSet | app/src/main/java/com/armpatch/android/workouttracker/adapters/TrackerPagerAdapter.java:171-177 | Changes the page as `SetEditor.DeselectSet`. |
| TrackerPager.SetEditorPage.SelectSet | app/src/main/java/com/armpatch/android/workouttracker/adapters/TrackerPagerAdapter.java:179-187 | Changes the page as `SetEditor.SelectSet`. |
| TrackerPager.HistoryPage.constructor | app/src/main/java/com/armpatch/android/workouttracker/adapters/TrackerPagerAdapter.java:196-206 | The history page owns a fresh history adapter that has not been refreshed. |
| TrackerPager.HistoryPage.Refresh | app/src/main/java/com/armpatch/android/workouttracker/adapters/TrackerPagerAdapter.java:208-210 | Refreshing the page refreshes its history adapter once. |
| TrackerPager.HistoryPort.Refresh | app/src/main/java/com/armpatch/android/workouttracker/adapters/TrackerPagerAdapter.java:209 | The history adapter counts one more refresh. |
| TrackerPager.PageFor | app/src/main/java/com/armpatch/android/workouttracker/adapters/TrackerPagerAdapter.java:68-80 | The editor page is built exactly at position 0. Every other position builds the history page. |
| TrackerPager.TitleFor | app/src/main/java/com/armpatch/android/workouttracker/adapters/TrackerPagerAdapter.java:45-51 | The first title belongs exactly to the position that builds the editor page. |
| TrackerPager.PagesCoverKinds | app/src/main/java/com/armpatch/android/workouttracker/adapters/TrackerPagerAdapter.java:38-80 | The two positions the pager shows hold both kinds of page, one each. |
| TrackerPager.TrackerPagerAdapter.constructor | app/src/main/java/com/armpatch/android/workouttracker/adapters/TrackerPagerAdapter.java:28-32 | Keeps the date and exercise name. No page is built yet. |
| TrackerPager.TrackerPagerAdapter.InstantiateItem | app/src/main/java/com/armpatch/android/workouttracker/adapters/TrackerPagerAdapter.java:68-80 | Position 0 builds and remembers a fresh editor page in its initial state. Any other position builds and remembers a fresh history page. The other page field is unchanged. |
| TrackerPager.TrackerPagerAdapter.LoadHistoryPage | app/src/main/java/com/armpatch/android/workouttracker/adapters/TrackerPagerAdapter.java:34-36 | Only asks the history page's adapter for one refresh. The history page must already be built. |
| AddExercise.CategorySelectionAdapter.SetCategories | app/src/main/java/com/armpatch/android/workouttracker/activity/AddExerciseActivity.java:97 | The adapter now holds the given categories. |
| AddExercise.AddExerciseActivity.constructor | app/src/main/java/com/armpatch/android/workouttracker/activity/AddExerciseActivity.java:58-79 | The screen takes its date from the intent, shows no adapter, and has started exactly one load, of the categories. |
| AddExercise.AddExerciseActivity.OnCategoryHolderSelected | app/src/main/java/com/armpatch/android/workouttracker/activity/AddExerciseActivity.java:46-48 | Starts a load of the chosen category's exercises. Nothing else changes. |
| AddExercise.AddExerciseActivity.OnExerciseHolderSelected | app/src/main/java/com/armpatch/android/workouttracker/activity/AddExerciseActivity.java:51-55 | The screen ends by opening the tracker for that exercise on the screen's date. |
| AddExercise.AddExerciseActivity.OnCategoriesLoaded | app/src/main/java/com/armpatch/android/workouttracker/activity/AddExerciseActivity.java:81-100 | The first completion creates and shows a fresh category adapter over the loaded list. A later one reuses the same adapter, only replaces its categories, and leaves the shown adapter alone. |
| AddExercise.AddExerciseActivity.OnExercisesLoaded | app/src/main/java/com/armpatch/android/workouttracker/activity/AddExerciseActivity.java:104-124 | A fresh exercise adapter over the loaded list becomes the shown adapter. Nothing checks whether a newer category was chosen. |
| AddExercise.AddExerciseActivity.OnBackPressed | app/src/main/java/com/armpatch/android/workouttracker/activity/AddExerciseActivity.java:127-134 | If the shown adapter is the exercise adapter (same reference), the category adapter is shown and the screen stays. Otherwise the screen closes. |
| AddExercise.BackFromExercises | app/src/main/java/com/armpatch/android/workouttracker/activity/AddExerciseActivity.java:128-133 | Back from an exercise list shows the loaded category list and stays. A second back leaves the screen. |
| AddExercise.BackBeforeCategoriesArrive | app/src/main/java/com/armpatch/android/workouttracker/activity/AddExerciseActivity.java:128-130 | Back before the categories have arrived does not leave the screen, because the empty shown adapter equals the not-yet-created exercise adapter. |
| AddExercise.ChooseExercise | app/src/main/java/com/armpatch/android/workouttracker/activity/AddExerciseActivity.java:46-55 | Category, then its exercises, then an exercise opens the tracker for that exercise on the screen's date. |
| AddExercise.LastCompletionWins | app/src/main/java/com/armpatch/android/workouttracker/activity/AddExerciseActivity.java:104-124 | When categories A then B are chosen and A's load finishes last, A's exercises are shown. |

## Behaviour worth noting

- The add/update button adds when nothing is selected and updates the selected set otherwise. Neither case is an error.
- The delete button is disabled whenever nothing is selected, so a delete reaches the set list only with a set.
- The editor page keeps no order of its own and no record of whether the history list is up to date. Both belong to the set adapter and the history adapter, which are not part of this model.
- The exercise-load completion handler does not compare the load with the latest category choice. In the model, where completions may arrive in either order, a load that completes after a newer one replaces the newer list (`AddExercise.LastCompletionWins`). That scenario belongs to the model's completion abstraction. Whether the platform's background tasks can in fact finish out of order is not modelled.
- Choosing an exercise finishes the screen, so there is no later state to go back from.
- Back before any list has been shown stays on the screen (`AddExercise.BackBeforeCategoriesArrive`).

## Left out

- Views, layout inflation, `RecyclerView` and `PagerAdapter` plumbing (`isViewFromObject`, `addView`), the toolbar and string resources. Button texts and page titles are modelled as labels.
- Number choosers and float measurements. Weight and reps are `real` values passed through unchanged, and float precision is not modelled.
- TrackerPager.SetEditorPage.SelectSet: does not set the number choosers to the selected set's measurements truncated to `int` (TrackerPagerAdapter.java:183-184), because the choosers are widgets.
- SetEditor.Initial: assumes the add/update button's initial text, which the layout file declares and `setupButtons` never sets (TrackerPagerAdapter.java:119-128), is not the "update" text. It is modelled as a separate `LayoutLabel`, so the clause "the button reads 'update' exactly when a set is selected" in `SetEditor.Consistent` and `SetEditor.Reachable` rests on that assumption until the first select or deselect.
- TrackerPager.SetEditorPage.OnSetHolderClicked: takes a non-null set. In the source a null click with a set selected reaches `selectSet(null)`, which enables delete and then fails dereferencing the set (TrackerPagerAdapter.java:183). The set list only reports clicks on its rows, which hold sets.
- TrackerPager.TrackerPagerAdapter.LoadHistoryPage: requires the history page to be built. Called earlier, the source fails dereferencing the missing page (TrackerPagerAdapter.java:35). That failure is not modelled.
- TrackerPager.HistoryPage.constructor: does not model the `IllegalArgumentException` for a null view (TrackerPagerAdapter.java:197-199), because views are not modelled.
- The set-list port and the history port do not record which exercise name and date their adapters are built for (TrackerPagerAdapter.java:133, 203).
- TrackerPager.SetEditorPage.constructor: does not model the `IllegalArgumentException` for a null view. It also omits the set adapter's initial database load and its callback registration (TrackerPagerAdapter.java:135-136), which happen inside the set adapter.
- `SetEditor.Highlighted` interprets `highlightSet` as "highlight this one" and `removeAllHighlights` as "highlight none". It assumes no other call changes highlighting. The set adapter is not part of this model, so whether it un-highlights the previous set is not claimed.
- The set adapter, the history adapter and the repository appear only as ports that record calls. Their storage, ordering and refresh are not part of this model.
- Threads of the background tasks, and the shared `categories` and `exercises` fields they write. Each completion is one atomic event with its list. A completion may only happen for a load that was started.
- Intents, `startActivity` and `finish`. They appear only as the terminal `Status` values. User events require an open screen, because a finished screen receives no input.
- Before the first load, the `categories` and `exercises` fields are empty sequences rather than null.
- `ExerciseCategoryAdapter.java` is list-binding glue with no logic of its own. `WorkoutListAdapter.java` holds page-count constants and view add/remove calls. Neither is part of this model.
