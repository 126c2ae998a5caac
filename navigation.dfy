/** The navigation list: one entry per friend, kept in step with the store
    by a full reload and by the "friend saved" / "friend deleted" events. */
module Navigation {
  import opened Event
  import Nullable

  /** One row of the lookup service's answer. */
  datatype LookupItem = LookupItem(id: int, displayMember: string)

  /** One entry of the navigation list: a friend's id and its label. */
  datatype NavItem = NavItem(id: int, displayMember: string)

  /** What LINQ's `SingleOrDefault(f => f.Id == id)` finds: nothing (the
      default, `null`), exactly one entry, or several (it then throws). */
  datatype Match = NoMatch | Single(index: nat) | Multiple

  /** How an event handler ends: normally, or with the
      `InvalidOperationException` that `SingleOrDefault` throws. */
  datatype Outcome = Done | InvalidOperation

  /** No two entries share an id. */
  ghost predicate UniqueIds(s: seq<NavItem>)
  {
    forall j, k :: 0 <= j < |s| && 0 <= k < |s| && s[j].id == s[k].id ==> j == k
  }

  /** At most one entry carries `id`, so `SingleOrDefault` does not throw. */
  ghost predicate AtMostOneWithId(s: seq<NavItem>, id: int)
  {
    forall j, k :: 0 <= j < |s| && 0 <= k < |s| && s[j].id == id && s[k].id == id ==> j == k
  }

  /** Some entry carries `id`. */
  ghost predicate HasId(s: seq<NavItem>, id: int)
  {
    exists k :: 0 <= k < |s| && s[k].id == id
  }

  /** Scans `s` for entries with `id`, as `SingleOrDefault` does. This scan
      stops at the second match; `SingleOrDefault` may go on counting
      before it throws, with the same result. */
  method SingleOrDefault(s: seq<NavItem>, id: int) returns (m: Match)
    ensures m == NoMatch <==> !HasId(s, id)
    ensures m.Single? ==> m.index < |s| && s[m.index].id == id &&
                          forall k :: 0 <= k < |s| && k != m.index ==> s[k].id != id
    ensures m == Multiple <==> !AtMostOneWithId(s, id)
  {
    var found: Nullable.Nullable<nat> := Nullable.Null;
    var i := 0;
    while i < |s|
      invariant 0 <= i <= |s|
      invariant found.Null? ==> forall k :: 0 <= k < i ==> s[k].id != id
      invariant found.NonNull? ==> found.value < i && s[found.value].id == id &&
                                   forall k :: 0 <= k < i && k != found.value ==> s[k].id != id
    {
      if s[i].id == id {
        if found.NonNull? {
          return Multiple;
        }
        found := Nullable.NonNull(i);
      }
      i := i + 1;
    }
    if found.Null? {
      m := NoMatch;
    } else {
      m := Single(found.value);
    }
  }

  /** Reference definition of a save: relabel the first entry with `id`,
      or append a new entry when there is none. */
  function Upsert(s: seq<NavItem>, id: int, display: string): (r: seq<NavItem>)
    ensures |r| == |s| || |r| == |s| + 1
    ensures NavItem(id, display) in r
    ensures forall x :: x in s && x.id != id ==> x in r
  {
    if s == [] then [NavItem(id, display)]
    else if s[0].id == id then [NavItem(id, display)] + s[1..]
    else [s[0]] + Upsert(s[1..], id, display)
  }

  /** Reference definition of a delete: drop every entry with `id`,
      keeping the others in their order. */
  function RemoveId(s: seq<NavItem>, id: int): (r: seq<NavItem>)
    ensures |r| <= |s|
    ensures forall x :: x in r ==> x in s && x.id != id
    ensures forall x :: x in s && x.id != id ==> x in r
  {
    if s == [] then []
    else if s[0].id == id then RemoveId(s[1..], id)
    else [s[0]] + RemoveId(s[1..], id)
  }

  /** Saving an id that is not listed appends exactly one entry at the end. */
  lemma {:induction false} UpsertAbsent(s: seq<NavItem>, id: int, display: string)
    requires !HasId(s, id)
    ensures Upsert(s, id, display) == s + [NavItem(id, display)]
  {
    if s != [] {
      assert s[0].id != id;
      assert !HasId(s[1..], id) by {
        forall k | 0 <= k < |s[1..]| ensures s[1..][k].id != id { assert s[1..][k] == s[k + 1]; }
      }
      UpsertAbsent(s[1..], id, display);
      assert s == [s[0]] + s[1..];
    }
  }

  /** Saving the id of the one entry at `i` relabels that entry and nothing else. */
  lemma {:induction false} UpsertPresent(s: seq<NavItem>, id: int, display: string, i: nat)
    requires i < |s| && s[i].id == id
    requires forall k :: 0 <= k < |s| && k != i ==> s[k].id != id
    ensures Upsert(s, id, display) == s[i := NavItem(id, display)]
  {
    var item := NavItem(id, display);
    if i == 0 {
      assert s[0 := item] == [item] + s[1..];
    } else {
      var tail := s[1..];
      assert s[0].id != id;
      forall k | 0 <= k < |tail| && k != i - 1 ensures tail[k].id != id { assert tail[k] == s[k + 1]; }
      UpsertPresent(tail, id, display, i - 1);
      assert Upsert(s, id, display) == [s[0]] + tail[i - 1 := item];
      assert s[i := item] == [s[0]] + tail[i - 1 := item];
    }
  }

  /** A save never creates a duplicate id. */
  lemma {:induction false} UpsertKeepsUnique(s: seq<NavItem>, id: int, display: string)
    requires UniqueIds(s)
    ensures UniqueIds(Upsert(s, id, display))
  {
    if HasId(s, id) {
      var i :| 0 <= i < |s| && s[i].id == id;
      UpsertPresent(s, id, display, i);
    } else {
      UpsertAbsent(s, id, display);
    }
  }

  /** Saving the same event twice leaves the list as saving it once. */
  lemma {:induction false} UpsertIdempotent(s: seq<NavItem>, id: int, display: string)
    ensures Upsert(Upsert(s, id, display), id, display) == Upsert(s, id, display)
  {
    if s != [] && s[0].id != id {
      UpsertIdempotent(s[1..], id, display);
      var r := Upsert(s, id, display);
      assert r[1..] == Upsert(s[1..], id, display);
    }
  }

  /** Deleting an id that is not listed changes nothing. */
  lemma {:induction false} RemoveAbsent(s: seq<NavItem>, id: int)
    requires !HasId(s, id)
    ensures RemoveId(s, id) == s
  {
    if s != [] {
      assert s[0].id != id;
      assert !HasId(s[1..], id) by {
        forall k | 0 <= k < |s[1..]| ensures s[1..][k].id != id { assert s[1..][k] == s[k + 1]; }
      }
      RemoveAbsent(s[1..], id);
      assert s == [s[0]] + s[1..];
    }
  }

  /** Deleting the id of the one entry at `i` removes exactly that entry,
      keeping the others in order. */
  lemma {:induction false} RemovePresent(s: seq<NavItem>, id: int, i: nat)
    requires i < |s| && s[i].id == id
    requires forall k :: 0 <= k < |s| && k != i ==> s[k].id != id
    ensures RemoveId(s, id) == s[..i] + s[i + 1..]
  {
    if i == 0 {
      assert !HasId(s[1..], id) by {
        forall k | 0 <= k < |s[1..]| ensures s[1..][k].id != id { assert s[1..][k] == s[k + 1]; }
      }
      RemoveAbsent(s[1..], id);
    } else {
      forall k | 0 <= k < |s[1..]| && k != i - 1 ensures s[1..][k].id != id { assert s[1..][k] == s[k + 1]; }
      RemovePresent(s[1..], id, i - 1);
      assert s[..i] + s[i + 1..] == [s[0]] + (s[1..][..i - 1] + s[1..][i..]);
    }
  }

  /** Deleting twice is the same as deleting once. */
  lemma {:induction false} RemoveIdempotent(s: seq<NavItem>, id: int)
    ensures RemoveId(RemoveId(s, id), id) == RemoveId(s, id)
  {
    if s != [] {
      RemoveIdempotent(s[1..], id);
    }
  }

  /** A delete keeps ids unique. */
  lemma {:induction false} RemoveKeepsUnique(s: seq<NavItem>, id: int)
    requires UniqueIds(s)
    ensures UniqueIds(RemoveId(s, id))
  {
    if HasId(s, id) {
      var i :| 0 <= i < |s| && s[i].id == id;
      RemovePresent(s, id, i);
      var r := s[..i] + s[i + 1..];
      forall j, k | 0 <= j < |r| && 0 <= k < |r| && r[j].id == r[k].id ensures j == k {
        var j' := if j < i then j else j + 1;
        var k' := if k < i then k else k + 1;
        assert r[j] == s[j'] && r[k] == s[k'];
      }
    } else {
      RemoveAbsent(s, id);
    }
  }

  /** A save followed by a delete of the same id leaves what the delete
      alone would: the save touches no other entry. */
  lemma {:induction false} RemoveAfterUpsert(s: seq<NavItem>, id: int, display: string)
    ensures RemoveId(Upsert(s, id, display), id) == RemoveId(s, id)
  {
    if s == [] {
    } else if s[0].id == id {
      assert Upsert(s, id, display)[1..] == s[1..];
    } else {
      RemoveAfterUpsert(s[1..], id, display);
      assert Upsert(s, id, display)[1..] == Upsert(s[1..], id, display);
    }
  }

  /** The view model behind the navigation pane. */
  class NavigationViewModel {
    /** The entries shown, in display order. */
    var friends: seq<NavItem>

    constructor ()
      ensures friends == []
    {
      friends := [];
    }

    /** Replaces the whole list by the lookup service's answer, which the
        caller has already awaited. */
    method LoadAsync(lookup: seq<LookupItem>)
      modifies this
      ensures |friends| == |lookup|
      ensures forall k :: 0 <= k < |lookup| ==>
                friends[k] == NavItem(lookup[k].id, lookup[k].displayMember)
      ensures (forall j, k :: 0 <= j < |lookup| && 0 <= k < |lookup| && lookup[j].id == lookup[k].id ==> j == k) ==>
                UniqueIds(friends)
    {
      friends := [];
      for i := 0 to |lookup|
        invariant |friends| == i
        invariant forall k :: 0 <= k < i ==> friends[k] == NavItem(lookup[k].id, lookup[k].displayMember)
      {
        friends := friends + [NavItem(lookup[i].id, lookup[i].displayMember)];
      }
    }

    /** Handles the "friend deleted" event. */
    method AfterFriendDeleted(friendId: int) returns (outcome: Outcome)
      modifies this
      ensures outcome == Done <==> AtMostOneWithId(old(friends), friendId)
      ensures outcome == Done ==> friends == RemoveId(old(friends), friendId)
      ensures outcome == InvalidOperation ==> friends == old(friends)
      ensures UniqueIds(old(friends)) ==> outcome == Done && UniqueIds(friends)
    {
      var m := SingleOrDefault(friends, friendId);
      match m {
      case NoMatch =>
        RemoveAbsent(friends, friendId);
        outcome := Done;
      case Single(i) =>
        RemovePresent(friends, friendId, i);
        friends := friends[..i] + friends[i + 1..];
        outcome := Done;
      case Multiple =>
        outcome := InvalidOperation;
      }
      if outcome == Done && UniqueIds(old(friends)) {
        RemoveKeepsUnique(old(friends), friendId);
      }
    }

    /** Handles the "friend saved" event: relabel the friend's entry, or
        add one for a friend not listed yet. */
    method AfterFriendSaved(args: AfterFriendSavedEventArgs) returns (outcome: Outcome)
      modifies this
      ensures outcome == Done <==> AtMostOneWithId(old(friends), args.id)
      ensures outcome == Done ==> friends == Upsert(old(friends), args.id, args.displayMember)
      ensures outcome == InvalidOperation ==> friends == old(friends)
      ensures UniqueIds(old(friends)) ==> outcome == Done && UniqueIds(friends)
    {
      var m := SingleOrDefault(friends, args.id);
      match m {
      case NoMatch =>
        UpsertAbsent(friends, args.id, args.displayMember);
        friends := friends + [NavItem(args.id, args.displayMember)];
        outcome := Done;
      case Single(i) =>
        UpsertPresent(friends, args.id, args.displayMember, i);
        friends := friends[i := friends[i].(displayMember := args.displayMember)];
        outcome := Done;
      case Multiple =>
        outcome := InvalidOperation;
      }
      if outcome == Done && UniqueIds(old(friends)) {
        UpsertKeepsUnique(old(friends), args.id, args.displayMember);
      }
    }
  }
}
