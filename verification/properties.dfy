/**
 * Properties that relate several service calls, and the service as one
 * state machine whose steps are its public operations.
 */
module ServiceProperties {
  import opened Results
  import opened Dates
  import opened Users
  import opened Failures
  import opened Repository
  import opened Patching
  import opened UserService

  /** A call of one public service operation. */
  datatype Request =
    | GetAll
    | Create(user: User, newId: int)
    | Patch(id: int, updates: seq<Update>)
    | ReplaceAll(id: int, replacement: User)
    | Delete(id: int)
    | Search(from: Date, to: Date)

  /** What a successful call hands back. */
  datatype Response = Listed(users: seq<User>) | Written(user: User) | Deleted

  /** The one row a request may write, if any. */
  function Target(req: Request): Option<int> {
    match req
    case Create(_, newId) => Some(newId)
    case Patch(id, _) => Some(id)
    case ReplaceAll(id, _) => Some(id)
    case Delete(id) => Some(id)
    case _ => None
  }

  /** The store after a write: the saved store on success, the old one on failure. */
  function AfterWrite(s: Store, r: Result<Saved, Failure>): (Store, Result<Response, Failure>) {
    match r
    case Ok(saved) => (saved.store, Ok(Written(saved.user)))
    case Err(f) => (s, Err(f))
  }

  /** The service as a transition: the store after the call, and the call's outcome. */
  function Step(s: Store, policy: Policy, req: Request): (r: (Store, Result<Response, Failure>))
    ensures r.1.Err? ==> r.0 == s
    ensures req.GetAll? || req.Search? ==> r.0 == s
    ensures forall k :: k in r.0 && k !in s ==> Target(req) == Some(k)
    ensures forall k :: k in s && Target(req) != Some(k) ==> k in r.0 && r.0[k] == s[k]
  {
    match req
    case GetAll => (s, Ok(Listed(GetAllUsers(s))))
    case Create(user, newId) => AfterWrite(s, CreateUser(s, policy, user, newId))
    case Patch(id, updates) => AfterWrite(s, UpdateUser(s, id, updates))
    case ReplaceAll(id, replacement) => AfterWrite(s, UpdateAllUserFields(s, id, replacement))
    case Delete(id) =>
      (match DeleteUser(s, id)
       case Ok(s') => (s', Ok(Deleted))
       case Err(f) => (s, Err(f)))
    case Search(from, to) =>
      (match SearchUsersByBirthDateRange(s, from, to)
       case Ok(users) => (s, Ok(Listed(users)))
       case Err(f) => (s, Err(f)))
  }

  /** A user born exactly on the latest admissible birth date is accepted and saved. */
  lemma BoundaryBirthDateAccepted(s: Store, policy: Policy, user: User, newId: int)
    requires user.birthDate == policy.minBirthDate
    ensures CreateUser(s, policy, user, newId).Ok?
    ensures CreateUser(s, policy, user, newId).value.store[newId] == user.(id := newId)
  {
  }

  /** Creating a user under a fresh id and then deleting that id gives back the original store. */
  lemma CreateThenDeleteRestores(s: Store, policy: Policy, user: User, newId: int)
    requires newId !in s
    requires CreateUser(s, policy, user, newId).Ok?
    ensures DeleteUser(CreateUser(s, policy, user, newId).value.store, newId) == Ok(s)
  {
    var s' := CreateUser(s, policy, user, newId).value.store;
    var d := DeleteUser(s', newId).value;
    assert d.Keys == s.Keys;
    assert forall k :: k in d ==> d[k] == s[k];
    assert d == s;
  }

  /** A second delete of the same id fails with "not found". */
  lemma DeleteTwiceFails(s: Store, id: int)
    requires DeleteUser(s, id).Ok?
    ensures DeleteUser(DeleteUser(s, id).value, id) == Err(NotFound(id))
  {
  }

  /** After a delete, listing all users no longer shows a record with that id. */
  lemma DeletedUserNotListed(s: Store, id: int)
    requires DeleteUser(s, id).Ok?
    ensures forall u :: u in GetAllUsers(DeleteUser(s, id).value) ==> u.id != id
    ensures |GetAllUsers(DeleteUser(s, id).value)| == |GetAllUsers(s)| - 1
  {
  }

  /** A created user is found by a well-ordered search exactly when its birth date is in the window. */
  lemma CreatedUserFoundBySearch(s: Store, policy: Policy, user: User, newId: int, from: Date, to: Date)
    requires CreateUser(s, policy, user, newId).Ok?
    requires !IsAfter(from, to)
    ensures var saved := CreateUser(s, policy, user, newId).value;
      saved.user in SearchUsersByBirthDateRange(saved.store, from, to).value
      <==> InWindow(user.birthDate, from, to)
  {
  }

  /** The update map that names all six fields, each with `user`'s value. */
  function FullPatch(user: User): seq<Update> {
    [ Update("email", Text(user.email)),
      Update("firstName", Text(user.firstName)),
      Update("lastName", Text(user.lastName)),
      Update("birthDate", Day(user.birthDate)),
      Update("address", Text(user.address)),
      Update("phoneNumber", Text(user.phoneNumber)) ]
  }

  /** Where field `f` sits in `FullPatch`. */
  function Position(f: Field): nat {
    match f
    case Email => 0
    case FirstName => 1
    case LastName => 2
    case BirthDate => 3
    case Address => 4
    case PhoneNumber => 5
  }

  /** The full patch is admissible and gives every field, once, `user`'s value for it. */
  lemma FullPatchNamesEveryField(user: User, f: Field)
    ensures AllAdmissible(FullPatch(user))
    ensures LastNaming(FullPatch(user), Position(f), f)
    ensures FullPatch(user)[Position(f)].value == Get(user, f)
  {
  }

  /** Replacing all fields is the partial update that names every field. */
  lemma ReplaceAllIsFullPatch(s: Store, id: int, user: User)
    ensures UpdateAllUserFields(s, id, user) == UpdateUser(s, id, FullPatch(user))
  {
    var a := UpdateAllUserFields(s, id, user);
    var b := UpdateUser(s, id, FullPatch(user));
    FullPatchNamesEveryField(user, Email);
    if id in s {
      var ups := FullPatch(user);
      forall f
        ensures Get(a.value.user, f) == Get(b.value.user, f)
      {
        FullPatchNamesEveryField(user, f);
      }
      Extensionality(a.value.user, b.value.user);
      assert a.value.store == b.value.store;
    }
  }

  /** Sending the same successful partial update twice changes nothing the second time. */
  lemma UpdateUserIdempotent(s: Store, id: int, updates: seq<Update>)
    requires UpdateUser(s, id, updates).Ok?
    ensures var once := UpdateUser(s, id, updates).value;
      UpdateUser(once.store, id, updates) == Ok(once)
  {
    var once := UpdateUser(s, id, updates).value;
    ApplyAllIdempotent(s[id], updates);
    assert once.store[id] == ApplyAll(s[id], updates).value;
    assert once.store[id := once.user] == once.store;
  }

  /**
   * The scenario of a user's whole life: created on the age boundary, its
   * address patched, deleted, and a second delete refused.
   */
  lemma Lifecycle(s: Store, policy: Policy, user: User, newId: int, newAddress: string)
    requires newId !in s
    requires user.birthDate == policy.minBirthDate
    ensures var c := CreateUser(s, policy, user, newId);
      && c.Ok?
      && var p := UpdateUser(c.value.store, newId, [Update("address", Text(newAddress))]);
      && p.Ok?
      && p.value.user == user.(id := newId, address := newAddress)
      && var d := DeleteUser(p.value.store, newId);
      && d == Ok(s)
      && DeleteUser(d.value, newId) == Err(NotFound(newId))
  {
    BoundaryBirthDateAccepted(s, policy, user, newId);
    var c := CreateUser(s, policy, user, newId).value;
    var ups := [Update("address", Text(newAddress))];
    assert AllAdmissible(ups);
    assert UpdateUser(c.store, newId, ups).Ok?;
    var p := UpdateUser(c.store, newId, ups).value;
    assert LastNaming(ups, 0, Address);
    forall f
      ensures Get(p.user, f) == Get(user.(id := newId, address := newAddress), f)
    {
      if f != Address {
        assert Untouched(ups, f);
      }
    }
    Extensionality(p.user, user.(id := newId, address := newAddress));
    var d := DeleteUser(p.store, newId).value;
    assert d.Keys == s.Keys;
    assert forall k :: k in d ==> d[k] == s[k];
    assert d == s;
  }
}
