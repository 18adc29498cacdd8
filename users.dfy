/** The user table. A user is a row value; the service changes a user by
    writing a new value for the row with the same id. */
module Users {
  import opened Wrappers
  import opened Tables

  datatype User = User(
    id: int,
    email: string,
    password: string,   // the encoder's hash
    userName: string,
    apiKey: Option<string>,
    deleted: bool)

  type UserTable = seq<User>

  /** `findById`: soft-deleted users are found too. */
  function FindById(users: UserTable, id: int): (r: Option<User>)
    ensures r.Some? ==> r.value in users && r.value.id == id
    ensures r.None? <==> forall k :: 0 <= k < |users| ==> users[k].id != id
  {
    FirstMatch(users, (u: User) => u.id == id)
  }

  function FindByEmail(users: UserTable, email: string): (r: Option<User>)
    ensures r.Some? ==> r.value in users && r.value.email == email
    ensures r.None? <==> forall k :: 0 <= k < |users| ==> users[k].email != email
  {
    FirstMatch(users, (u: User) => u.email == email)
  }

  function FindByApiKey(users: UserTable, key: string): (r: Option<User>)
    ensures r.Some? ==> r.value in users && r.value.apiKey == Some(key)
    ensures r.None? <==> forall k :: 0 <= k < |users| ==> users[k].apiKey != Some(key)
  {
    FirstMatch(users, (u: User) => u.apiKey == Some(key))
  }

  predicate ExistsByUserName(users: UserTable, userName: string) {
    exists k :: 0 <= k < |users| && users[k].userName == userName
  }

  predicate ExistsByUserNameAndIdNot(users: UserTable, userName: string, id: int) {
    exists k :: 0 <= k < |users| && users[k].userName == userName && users[k].id != id
  }

  /** Row ids are distinct and below the next id the sequence hands out;
      emails and API keys are unique columns. */
  ghost predicate WellFormed(users: UserTable, nextId: int) {
    && (forall k :: 0 <= k < |users| ==> users[k].id < nextId)
    && (forall i, j :: 0 <= i < j < |users| ==> users[i].id != users[j].id)
    && (forall i, j :: 0 <= i < j < |users| ==> users[i].email != users[j].email)
    && (forall i, j :: 0 <= i < j < |users| && users[i].apiKey.Some? ==> users[i].apiKey != users[j].apiKey)
  }

  class UserRepository {
    var users: UserTable
    var nextId: int

    ghost predicate Valid()
      reads this
    {
      WellFormed(users, nextId)
    }

    constructor ()
      ensures Valid() && users == []
    {
      users := [];
      nextId := 1;
    }

    /** `save` of a new user: the sequence assigns the id. */
    method Insert(email: string, password: string, userName: string) returns (u: User)
      requires Valid() && FindByEmail(users, email).None?
      modifies this
      ensures Valid()
      ensures u == User(old(nextId), email, password, userName, None, false)
      ensures users == old(users) + [u]
    {
      u := User(nextId, email, password, userName, None, false);
      users := users + [u];
      nextId := nextId + 1;
    }

    /** `save` of a changed user (or the flush of a managed one): the row
        with that id takes the new value. The caller keeps the email and
        hands out only an API key no other user holds. */
    method Save(u: User)
      requires Valid() && FindById(users, u.id).Some? && FindById(users, u.id).value.email == u.email
      requires u.apiKey.Some? ==> forall j :: 0 <= j < |users| && users[j].id != u.id ==> users[j].apiKey != u.apiKey
      modifies this
      ensures Valid() && nextId == old(nextId)
      ensures users == ReplaceRow(old(users), u.id, u)
    {
      var k :| 0 <= k < |users| && users[k].id == u.id;
      users := users[k := u];
      assert users == ReplaceRow(old(users), u.id, u);
    }
  }

  /** The table with the row whose id is `id` replaced by `row`. */
  function ReplaceRow(users: UserTable, id: int, row: User): (r: UserTable)
    ensures |r| == |users|
    ensures forall j :: 0 <= j < |users| ==> r[j] == (if users[j].id == id then row else users[j])
  {
    seq(|users|, j requires 0 <= j < |users| => if users[j].id == id then row else users[j])
  }

  /** With distinct ids, looking up a stored user's id finds that user. */
  lemma IdFinds(users: UserTable, nextId: int, i: nat)
    requires WellFormed(users, nextId) && i < |users|
    ensures FindById(users, users[i].id) == Some(users[i])
  {
    var r := FindById(users, users[i].id);
    var j :| 0 <= j < |users| && users[j] == r.value;
    assert j == i;
  }

  ghost predicate EmailsUnique(users: UserTable) {
    forall i, j :: 0 <= i < j < |users| ==> users[i].email != users[j].email
  }

  /** With unique emails, looking up a stored user's email finds that user. */
  lemma EmailFinds(users: UserTable, i: nat)
    requires EmailsUnique(users) && i < |users|
    ensures FindByEmail(users, users[i].email) == Some(users[i])
  {
    var r := FindByEmail(users, users[i].email);
    var j :| 0 <= j < |users| && users[j] == r.value;
    assert j == i;
  }

  /** With unique API keys, looking up a stored user's key finds that user. */
  lemma KeyFinds(users: UserTable, nextId: int, i: nat)
    requires WellFormed(users, nextId) && i < |users| && users[i].apiKey.Some?
    ensures FindByApiKey(users, users[i].apiKey.value) == Some(users[i])
  {
    var r := FindByApiKey(users, users[i].apiKey.value);
    var j :| 0 <= j < |users| && users[j] == r.value;
    assert j == i;
  }

  /** Replacing a row by one with the same id and email: a lookup by email
      that found the old row finds the new one, and any other is unchanged. */
  lemma {:induction false} EmailLookupAfterReplace(users: UserTable, nextId: int, id: int, row: User, email: string)
    requires WellFormed(users, nextId) && FindById(users, id).Some?
    requires row.id == id && row.email == FindById(users, id).value.email
    ensures FindByEmail(ReplaceRow(users, id, row), email) ==
      (if FindByEmail(users, email) == FindById(users, id) then Some(row) else FindByEmail(users, email))
  {
    var after := ReplaceRow(users, id, row);
    assert forall j :: 0 <= j < |users| ==> after[j].email == users[j].email;
    var before := FindByEmail(users, email);
    if before.Some? {
      var a :| 0 <= a < |users| && users[a] == before.value;
      assert EmailsUnique(after);
      EmailFinds(after, a);
      IdFinds(users, nextId, a);
    }
  }
}
