# FriendOrganizer view-model core, modelled in Dafny

FriendOrganizer is a WPF desktop application for managing friends. This
project models three parts of its UI layer and proves properties of them:

- **The navigation list** (`Navigation`, from `NavigationViewModel.cs`).
  This is the list of `(Id, DisplayMember)` entries in the navigation pane.
  - `LoadAsync` replaces it with the lookup service's answer.
  - The "friend saved" event relabels the friend's entry, or appends a new one.
  - The "friend deleted" event removes the friend's entry.
  - Both handlers look the entry up with LINQ's `SingleOrDefault`, which
    throws when two entries share the id. The model returns that as the
    `InvalidOperation` outcome and leaves the list unchanged.
  - `Upsert` and `RemoveId` are recursive reference definitions. The
    handlers are proved equal to them. Lemmas prove uniqueness of ids is
    preserved, that both operations are idempotent, and that a save
    touches no other entry.
- **The friend validator** (`FriendWrapper`, from `FriendWrapper.cs`).
  - A record of the wrapper's fields `Id`, `FirstName`, `LastName` and `Email`.
    A C# `null` string is `Null`.
  - `ValidateProperty` returns exactly one error, "Robots are not valid
    friends", when the validated property is `FirstName` and the first name
    equals "Robot" under ordinal case-insensitive comparison.
    It returns no error otherwise.
  - The comparison is modelled as ASCII upper-case folding, character by
    character. It is proved to accept exactly the 32 upper/lower-case
    spellings of "robot", and never a null name.
- **The shell** (`MainView`, from `MainViewModel.cs`).
  - It holds at most one open detail view.
  - Opening a detail while the current one has unsaved changes asks for
    confirmation. Cancel leaves everything as it was.
  - Otherwise the detail registered under the requested name becomes
    current and is loaded with exactly the requested id.
  - "Create new" opens a detail with no id.
  - A "detail deleted" event closes the current detail.

Inputs that the application awaits or asks for are parameters:
- the lookup service's answer;
- the dialog's OK/Cancel reply;
- the registry of detail view models by name, a `map`.

Event subscription is left out. Each handler is a sequential method called
with the event's payload.

Navigation entries carry no entity kind and are matched by `Id` alone.
The detail view models shown have no save, delete or conflict-handling lifecycle.

The event argument record is spelled `OpenDetailViewEbentArgs` in
`FriendOrganizer.UI/Event/OpenDetailViewEvent.cs`. Here it is `Event.OpenDetailViewEventArgs`.

## Model

| member | source | states |
|---|---|---|
| Navigation.SingleOrDefault | FriendOrganizer.UI/ViewModel/NavigationViewModel.cs:39-48 | The lookup finds no entry iff none has the id. A single match is the only entry with the id. It reports several matches iff two distinct entries share the id. Both handlers use it, at lines 39 and 48. |
| Navigation.Upsert | FriendOrganizer.UI/ViewModel/NavigationViewModel.cs:46-58 | Reference save: the result grows by at most one entry, it contains `(id, label)`, and it keeps every entry with another id. |
| Navigation.RemoveId | FriendOrganizer.UI/ViewModel/NavigationViewModel.cs:37-44 | Reference delete: the result is no longer than the input. It holds exactly the input's entries with another id. |
| Navigation.UpsertAbsent | FriendOrganizer.UI/ViewModel/NavigationViewModel.cs:49-53 | Saving an id that is not listed appends `(id, label)` at the end and leaves all earlier entries unchanged. |
| Navigation.UpsertPresent | FriendOrganizer.UI/ViewModel/NavigationViewModel.cs:54-57 | Saving the id of the single entry with that id relabels that entry in place. Length, order and all other entries are unchanged. |
| Navigation.UpsertKeepsUnique | FriendOrganizer.UI/ViewModel/NavigationViewModel.cs:46-58 | A save never creates a duplicate id: unique ids before imply unique ids after. |
| Navigation.UpsertIdempotent | FriendOrganizer.UI/ViewModel/NavigationViewModel.cs:46-58 | Handling the same save event twice gives the same list as handling it once. |
| Navigation.RemoveAbsent | FriendOrganizer.UI/ViewModel/NavigationViewModel.cs:39-43 | Deleting an id that is not listed leaves the list unchanged; absence is not an error. |
| Navigation.RemovePresent | FriendOrganizer.UI/ViewModel/NavigationViewModel.cs:39-43 | Deleting the id of the single entry with that id removes exactly that entry. The rest keep their relative order. |
| Navigation.RemoveIdempotent | FriendOrganizer.UI/ViewModel/NavigationViewModel.cs:37-44 | Deleting the same id twice equals deleting it once. |
| Navigation.RemoveKeepsUnique | FriendOrganizer.UI/ViewModel/NavigationViewModel.cs:37-44 | A delete keeps ids unique. |
| Navigation.RemoveAfterUpsert | FriendOrganizer.UI/ViewModel/NavigationViewModel.cs:37-58 | A save followed by a delete of the same id equals the delete alone. So a save changes no entry with another id. |
| Navigation.NavigationViewModel.constructor | FriendOrganizer.UI/ViewModel/NavigationViewModel.cs:15-23 | The list starts empty. |
| Navigation.NavigationViewModel.LoadAsync | FriendOrganizer.UI/ViewModel/NavigationViewModel.cs:25-33 | Afterwards the list holds exactly the lookup's entries, in lookup order, with the same `Id` and `DisplayMember`. No earlier entry remains. If the lookup's ids are unique, so are the list's. |
| Navigation.NavigationViewModel.AfterFriendDeleted | FriendOrganizer.UI/ViewModel/NavigationViewModel.cs:37-44 | The handler throws iff two entries share the id, and then the list is unchanged. Otherwise the list becomes `RemoveId` of the old list. With unique ids it never throws and ids stay unique. |
| Navigation.NavigationViewModel.AfterFriendSaved | FriendOrganizer.UI/ViewModel/NavigationViewModel.cs:46-58 | The handler throws iff two entries share the id, and then the list is unchanged. Otherwise the list becomes `Upsert` of the old list with the event's id and label. With unique ids it never throws and ids stay unique. |
| FriendWrapper.SetFirstName | FriendOrganizer.UI/Wrapper/FriendWrapper.cs:15-19 | Writing `FirstName` sets it and leaves `Id`, `LastName` and `Email` unchanged. |
| FriendWrapper.SetLastName | FriendOrganizer.UI/Wrapper/FriendWrapper.cs:21-25 | Writing `LastName` sets it and leaves `Id`, `FirstName` and `Email` unchanged. |
| FriendWrapper.SetEmail | FriendOrganizer.UI/Wrapper/FriendWrapper.cs:27-31 | Writing `Email` sets it and leaves `Id`, `FirstName` and `LastName` unchanged. No setter changes `Id`. |
| FriendWrapper.SameIgnoringCaseAt | FriendOrganizer.UI/Wrapper/FriendWrapper.cs:38 | The model's case-insensitive equality (ASCII-only folding) of two strings holds iff they have the same length and agree at every position after folding. |
| FriendWrapper.FoldsToRobot | FriendOrganizer.UI/Wrapper/FriendWrapper.cs:38 | A five-character string folds to "Robot" iff each character is the lower- or upper-case letter of "robot" at that position. |
| FriendWrapper.RobotComparison | FriendOrganizer.UI/Wrapper/FriendWrapper.cs:38 | The comparison with "Robot" holds exactly for the case variants of "robot". It never holds for a null name or a name whose length is not 5. |
| FriendWrapper.ValidateProperty | FriendOrganizer.UI/Wrapper/FriendWrapper.cs:33-45 | The result has at most one error. It is non-empty iff the property is `FirstName` and the first name is a case variant of "robot", and then it is exactly ["Robots are not valid friends"]. Every other property, including `LastName` and `Email`, gets no errors. |
| FriendWrapper.ValidateReadsOnlyFirstName | FriendOrganizer.UI/Wrapper/FriendWrapper.cs:33-45 | Two friends with the same first name get the same errors, so the rule reads nothing but the property name and `FirstName`. |
| FriendWrapper.RobotExamples | FriendOrganizer.UI/Wrapper/FriendWrapper.cs:37-41 | "ROBOT", "robot" and "rObOt" give the one error. "Robo", "Robots", null, and "Robot" as a last name give none. |
| MainView.MainViewModel.constructor | FriendOrganizer.UI/ViewModel/MainViewModel.cs:21-38 | The shell starts with the given navigation view model and no open detail. |
| MainView.MainViewModel.LoadAsync | FriendOrganizer.UI/ViewModel/MainViewModel.cs:46-49 | Loading the shell loads the navigation list with exactly the lookup's entries, in order. |
| MainView.MainViewModel.OnOpenDetailView | FriendOrganizer.UI/ViewModel/MainViewModel.cs:61-74 | The dialog is shown iff the open detail has unsaved changes. On Cancel nothing changes and nothing is loaded. Otherwise, including on OK, the detail registered under `ViewModelName` becomes current and is loaded with exactly `args.Id`. An unregistered name changes nothing. |
| MainView.MainViewModel.OnCreateNewDetailExecute | FriendOrganizer.UI/ViewModel/MainViewModel.cs:40-44 | Behaves as opening the named detail with no id: on success the new detail is loaded with `Null`, a new entity. |
| MainView.MainViewModel.AfterDetailDeleted | FriendOrganizer.UI/ViewModel/MainViewModel.cs:76-79 | Whatever the event's payload, the open detail becomes `Null`. No load takes place. |

## Left out

- Event subscription (Prism's event aggregator), `async`/`await` scheduling, and `ObservableCollection` / `OnPropertyChanged` change notifications are left out. Handlers are sequential methods, and awaited results are parameters.
- `ModelWrapper<T>` is not part of this model. It is the base class behind `GetValue`/`SetValue`: original-value snapshots, `HasChanges`, `HasErrors` and the errors dictionary. The wrapper's property accessors are modelled as plain field writes.
- Navigation entries are values in a sequence. Relabelling an entry replaces it at its index, so aliasing of `NavigationItemViewModel` objects is not captured. Their own open-detail command is not part of this model.
- MainView.MainViewModel.OnOpenDetailView: the open detail's `LoadAsync` is not part of this model. The model records the id it is called with in `loads` and does not change the detail's `HasChanges` flag.
- MainView.MainViewModel.OnOpenDetailView: the dialog's texts ("You've made changes. Navigate away?", "Question") are not modelled. Only whether the dialog is shown is stated.
- MainView.MainViewModel.OnOpenDetailView: the registry's exception for an unknown name is the `NotRegistered` outcome. The application-wide handler that reports it (`App.xaml.cs`) is UI and left out.
- `FriendDetailViewModel.cs` is a fetch-and-assign over the data service. `ProgrammingLanguageWrapper.cs` only forwards `Name` and projects `Id`. `IMeetingRepository.cs` is an interface without behaviour. `App.xaml.cs` is start-up wiring and a message box. None has logic of its own to model.
- Non-ASCII case folding is not modelled: the comparison folds ASCII letters only, so "é" and "É" compare unequal here. This is harmless for `ValidateProperty`, because its comparison's other side is "Robot", and no non-ASCII character folds onto R, O, B or T.
- The C# `int` width of ids does not matter here: ids are only compared for equality, so they are unbounded integers.
