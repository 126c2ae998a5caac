/** Payloads of the events exchanged between the view models. */
module Event {
  import opened Nullable

  /** Arguments of the "open detail view" event: which detail to open
      (by view-model name) and which entity to load into it; a `Null`
      id asks for a new, unsaved entity. */
  datatype OpenDetailViewEventArgs = OpenDetailViewEventArgs(id: Nullable<int>, viewModelName: string)

  /** Arguments of the "friend saved" event: the saved friend's id and
      the label to show for it in the navigation list. */
  datatype AfterFriendSavedEventArgs = AfterFriendSavedEventArgs(id: int, displayMember: string)
}
