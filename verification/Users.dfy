/** Users and lists of users, as the user file keeps them. */
module Users {
  import opened FileReplace
  import opened Wrappers

  datatype User = User(kind: string, name: string, password: string, hint: string, failed: int)

  /** The position of the first user of a name, or the length. */
  function Find(users: seq<User>, name: string): (i: nat)
    ensures i <= |users| && (i < |users| ==> users[i].name == name)
    ensures forall k :: 0 <= k < i ==> users[k].name != name
  {
    if users == [] || users[0].name == name then 0 else 1 + Find(users[1..], name)
  }

  predicate Has(users: seq<User>, name: string) { Find(users, name) < |users| }

  function Removed(users: seq<User>, name: string): seq<User> {
    var i := Find(users, name);
    if i < |users| then users[..i] + users[i + 1..] else users
  }

  function Replaced(users: seq<User>, name: string, user: User): seq<User> {
    var i := Find(users, name);
    if i < |users| then users[i := user] else users
  }

  predicate Distinct(users: seq<User>) {
    forall i, j :: 0 <= i < j < |users| ==> users[i].name != users[j].name
  }

  /** The store of a fresh installation holds one user with the reserved name. */
  predicate PlaceholderOnly(users: seq<User>) { |users| == 1 && users[0].name == "null" }

  /** What becomes of each of the three saves that adding a user may need. */
  datatype Saves = Saves(add: Outcome, removePlaceholder: Outcome, undo: Outcome)

  /** The list after `addUser`, and whether it reports success; there is no list when a save has lost the file. A
      placeholder gives way to the first user; when neither its removal nor the undoing of the addition goes
      through, both users stay. */
  function Added(users: seq<User>, user: User, saves: Saves): (Option<seq<User>>, bool) {
    if Has(users, user.name) || saves.add.Kept? then (Some(users), false)
    else if saves.add.RestoreFailed? then (None, false)
    else if !PlaceholderOnly(users) then (Some(users + [user]), true)
    else
      match saves.removePlaceholder
      case InPlace => (Some([user]), true)
      case RestoreFailed => (None, false)
      case Kept =>
        match saves.undo
        case InPlace => (Some(users), false)
        case RestoreFailed => (None, false)
        case Kept => (Some(users + [user]), false)
  }

  /** The new user and the placeholder are both in the list after an addition that failed. */
  predicate BothStay(users: seq<User>, user: User, saves: Saves) {
    !Has(users, user.name) && PlaceholderOnly(users)
    && saves.add.InPlace? && saves.removePlaceholder.Kept? && saves.undo.Kept?
  }

  /** A save that is reached loses the file. */
  predicate AddLoses(users: seq<User>, user: User, saves: Saves) {
    !Has(users, user.name)
    && (saves.add.RestoreFailed?
      || (saves.add.InPlace? && PlaceholderOnly(users)
        && (saves.removePlaceholder.RestoreFailed? || (saves.removePlaceholder.Kept? && saves.undo.RestoreFailed?))))
  }

  /** A failed addition leaves the list alone exactly unless both stay or the file is lost. */
  lemma FailedAddKeepsList(users: seq<User>, user: User, saves: Saves)
    requires !Added(users, user, saves).1
    ensures Added(users, user, saves).0 == Some(users) <==>
      !BothStay(users, user, saves) && !AddLoses(users, user, saves)
    ensures Added(users, user, saves).0 == None <==> AddLoses(users, user, saves)
    ensures BothStay(users, user, saves) ==> Added(users, user, saves).0 == Some(users + [user])
  {
    assert |users + [user]| == |users| + 1;
  }

  /** Such a case: the second and the third save fail. */
  lemma BothCanStay(placeholder: User, user: User)
    requires placeholder.name == "null" && user.name != "null"
    ensures BothStay([placeholder], user, Saves(InPlace, Kept, Kept))
    ensures Added([placeholder], user, Saves(InPlace, Kept, Kept)) == (Some([placeholder, user]), false)
  {
    assert Find([placeholder], user.name) == 1;
    assert [placeholder] + [user] == [placeholder, user];
  }
}
