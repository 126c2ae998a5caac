/** The shell view model: owns the navigation pane and at most one open
    detail view, and guards against leaving a detail with unsaved changes. */
module MainView {
  import opened Nullable
  import opened Event
  import Navigation

  /** An open detail view, seen from the shell: whether it holds unsaved
      changes. */
  datatype DetailViewModel = DetailViewModel(hasChanges: bool)

  /** The answer of the OK/Cancel dialog. */
  datatype DialogResult = Ok | Cancel

  /** How a request to open a detail ends: the user kept the current
      detail, the new detail was opened, or no detail is registered under
      the requested name (the factory throws before anything changes). */
  datatype OpenOutcome = Cancelled | Opened | NotRegistered

  /** A confirmation is needed exactly when a detail is open and has
      unsaved changes. */
  predicate NeedsConfirmation(current: Nullable<DetailViewModel>)
  {
    current.NonNull? && current.value.hasChanges
  }

  class MainViewModel {
    const navigationViewModel: Navigation.NavigationViewModel
    /** The open detail, or `Null`. */
    var detailViewModel: Nullable<DetailViewModel>
    /** The ids passed to the open detail's `LoadAsync`, oldest first. */
    ghost var loads: seq<Nullable<int>>

    constructor (navigation: Navigation.NavigationViewModel)
      ensures navigationViewModel == navigation
      ensures detailViewModel == Null && loads == []
    {
      navigationViewModel := navigation;
      detailViewModel := Null;
      loads := [];
    }

    /** Loads the navigation pane from the lookup service's answer. */
    method LoadAsync(lookup: seq<Navigation.LookupItem>)
      modifies navigationViewModel
      ensures |navigationViewModel.friends| == |lookup|
      ensures forall k :: 0 <= k < |lookup| ==>
                navigationViewModel.friends[k] == Navigation.NavItem(lookup[k].id, lookup[k].displayMember)
    {
      navigationViewModel.LoadAsync(lookup);
    }

    /** Handles the "open detail view" event. `answer` is what the user
        would reply to the confirmation dialog; `creator` is the registry
        of detail view models by name. `asked` tells whether the dialog
        was shown. */
    method OnOpenDetailView(args: OpenDetailViewEventArgs, answer: DialogResult, creator: map<string, DetailViewModel>)
      returns (asked: bool, outcome: OpenOutcome)
      modifies this
      ensures asked <==> NeedsConfirmation(old(detailViewModel))
      ensures outcome == Cancelled <==> asked && answer == Cancel
      ensures outcome == NotRegistered <==> !(asked && answer == Cancel) && args.viewModelName !in creator
      ensures outcome == Opened ==>
                args.viewModelName in creator &&
                detailViewModel == NonNull(creator[args.viewModelName]) &&
                loads == old(loads) + [args.id]
      ensures outcome != Opened ==> detailViewModel == old(detailViewModel) && loads == old(loads)
    {
      asked := false;
      if detailViewModel.NonNull? && detailViewModel.value.hasChanges {
        asked := true;
        if answer == Cancel {
          outcome := Cancelled;
          return;
        }
      }
      if args.viewModelName !in creator {
        outcome := NotRegistered;
        return;
      }
      detailViewModel := NonNull(creator[args.viewModelName]);
      loads := loads + [args.id];
      outcome := Opened;
    }

    /** The "create new" command: opens a detail of the given kind with no
        id, that is, for a new entity. */
    method OnCreateNewDetailExecute(viewModelTypeName: string, answer: DialogResult, creator: map<string, DetailViewModel>)
      returns (asked: bool, outcome: OpenOutcome)
      modifies this
      ensures asked <==> NeedsConfirmation(old(detailViewModel))
      ensures outcome == Cancelled <==> asked && answer == Cancel
      ensures outcome == NotRegistered <==> !(asked && answer == Cancel) && viewModelTypeName !in creator
      ensures outcome == Opened ==>
                viewModelTypeName in creator &&
                detailViewModel == NonNull(creator[viewModelTypeName]) &&
                loads == old(loads) + [Null]
      ensures outcome != Opened ==> detailViewModel == old(detailViewModel) && loads == old(loads)
    {
      asked, outcome := OnOpenDetailView(OpenDetailViewEventArgs(Null, viewModelTypeName), answer, creator);
    }

    /** Handles the "detail deleted" event: the open detail is closed,
        whatever the event says. */
    method AfterDetailDeleted<A>(args: A)
      modifies this
      ensures detailViewModel == Null
      ensures loads == old(loads)
    {
      detailViewModel := Null;
    }
  }
}
