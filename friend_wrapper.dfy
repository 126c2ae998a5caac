/** The friend being edited and the validation rule on its fields. */
module FriendWrapper {
  import opened Nullable

  /** The fields the wrapper exposes; a `Null` string is a C# `null`.
      `id` has no setter below: it only mirrors the stored friend's id. */
  datatype Friend = Friend(id: int, firstName: Nullable<string>, lastName: Nullable<string>, email: Nullable<string>)

  /** The one error message the rule produces. */
  const RobotError: string := "Robots are not valid friends"

  /** The name under which the first-name field is validated. */
  const FirstNameProperty: string := "FirstName"

  function SetFirstName(f: Friend, value: Nullable<string>): (r: Friend)
    ensures r.firstName == value
    ensures r.id == f.id && r.lastName == f.lastName && r.email == f.email
  {
    f.(firstName := value)
  }

  function SetLastName(f: Friend, value: Nullable<string>): (r: Friend)
    ensures r.lastName == value
    ensures r.id == f.id && r.firstName == f.firstName && r.email == f.email
  {
    f.(lastName := value)
  }

  function SetEmail(f: Friend, value: Nullable<string>): (r: Friend)
    ensures r.email == value
    ensures r.id == f.id && r.firstName == f.firstName && r.lastName == f.lastName
  {
    f.(email := value)
  }

  /** ASCII-only case folding of one character: ASCII lower-case letters
      map to their upper-case form, every other character to itself.
      Non-ASCII letters are not folded. */
  function ToUpperOrdinal(c: char): char
  {
    if 'a' <= c <= 'z' then (c as int - 32) as char else c
  }

  /** Ordinal, case-insensitive equality of two non-null strings,
      compared character by character. */
  function SameIgnoringCase(x: string, y: string): bool
  {
    if |x| != |y| then false
    else if x == [] then true
    else ToUpperOrdinal(x[0]) == ToUpperOrdinal(y[0]) && SameIgnoringCase(x[1..], y[1..])
  }

  /** Case-insensitive equality with ASCII-only folding: two nulls are
      equal, a null and a string are not. It agrees with
      `string.Equals(a, b, StringComparison.OrdinalIgnoreCase)` when one
      side consists of ASCII letters only, as "Robot" does. */
  function EqualsOrdinalIgnoreCase(a: Nullable<string>, b: Nullable<string>): bool
  {
    match (a, b)
    case (Null, Null) => true
    case (NonNull(x), NonNull(y)) => SameIgnoringCase(x, y)
    case _ => false
  }

  /** The two strings agree position by position once case is folded. */
  lemma {:induction false} SameIgnoringCaseAt(x: string, y: string)
    ensures SameIgnoringCase(x, y) <==>
              |x| == |y| && forall i :: 0 <= i < |x| ==> ToUpperOrdinal(x[i]) == ToUpperOrdinal(y[i])
  {
    if |x| == |y| && x != [] {
      SameIgnoringCaseAt(x[1..], y[1..]);
      assert forall i :: 0 < i < |x| ==> x[1..][i - 1] == x[i] && y[1..][i - 1] == y[i];
    }
  }

  /** `name` is "robot" written in any mix of upper and lower case. */
  ghost predicate SpellsRobot(name: Nullable<string>)
  {
    name.NonNull? && |name.value| == 5 &&
    forall i :: 0 <= i < 5 ==> name.value[i] == "robot"[i] || name.value[i] == "ROBOT"[i]
  }

  /** Folding matches the letters of "Robot" exactly on their two cases. */
  lemma FoldsToRobot(s: string)
    requires |s| == 5
    ensures (forall i :: 0 <= i < 5 ==> ToUpperOrdinal(s[i]) == ToUpperOrdinal("Robot"[i])) <==>
            (forall i :: 0 <= i < 5 ==> s[i] == "robot"[i] || s[i] == "ROBOT"[i])
  {
  }

  /** `string.Equals(name, "Robot", OrdinalIgnoreCase)` holds exactly for
      the case variants of "robot"; a null name never matches. */
  lemma RobotComparison(name: Nullable<string>)
    ensures EqualsOrdinalIgnoreCase(name, NonNull("Robot")) <==> SpellsRobot(name)
  {
    if name.NonNull? {
      SameIgnoringCaseAt(name.value, "Robot");
      if |name.value| == 5 {
        FoldsToRobot(name.value);
      }
    }
  }

  /** The errors for one property of `f`: a first name that is "Robot"
      in any case gives the one robot error; everything else is valid. */
  function ValidateProperty(propertyName: string, f: Friend): (errors: seq<string>)
    ensures |errors| <= 1
    ensures errors != [] <==> propertyName == FirstNameProperty && SpellsRobot(f.firstName)
    ensures errors != [] ==> errors == [RobotError]
  {
    RobotComparison(f.firstName);
    if propertyName == FirstNameProperty && EqualsOrdinalIgnoreCase(f.firstName, NonNull("Robot"))
    then [RobotError]
    else []
  }

  /** The rule reads only the property name and the first name. */
  lemma ValidateReadsOnlyFirstName(propertyName: string, f: Friend, g: Friend)
    requires f.firstName == g.firstName
    ensures ValidateProperty(propertyName, f) == ValidateProperty(propertyName, g)
  {
  }

  /** Upper-case, lower-case and mixed-case spellings are all rejected;
      a shorter name or a missing one is not. */
  lemma RobotExamples(f: Friend)
    ensures ValidateProperty(FirstNameProperty, SetFirstName(f, NonNull("ROBOT"))) == [RobotError]
    ensures ValidateProperty(FirstNameProperty, SetFirstName(f, NonNull("robot"))) == [RobotError]
    ensures ValidateProperty(FirstNameProperty, SetFirstName(f, NonNull("rObOt"))) == [RobotError]
    ensures ValidateProperty(FirstNameProperty, SetFirstName(f, NonNull("Robo"))) == []
    ensures ValidateProperty(FirstNameProperty, SetFirstName(f, NonNull("Robots"))) == []
    ensures ValidateProperty(FirstNameProperty, SetFirstName(f, Null)) == []
    ensures ValidateProperty("LastName", SetLastName(f, NonNull("Robot"))) == []
  {
  }
}
