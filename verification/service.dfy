/**
 * The user service: each public operation as a pure transition over the
 * store.  A failed call returns the exception and no store, so the caller's
 * store is the store after the call; the read-only operations return no store.
 */
module UserService {
  import opened Results
  import opened Dates
  import opened Users
  import opened Failures
  import opened Repository
  import opened Patching

  /**
   * The age rule in force at the time of a call: the configured minimum age
   * (`user.age.min`) and the latest admissible birth date, which is today
   * minus that many years as the caller's clock computes it.
   */
  datatype Policy = Policy(minUserAge: int, minBirthDate: Date)

  /** What a successful write returns: the store after the save, and the saved record. */
  datatype Saved = Saved(store: Store, user: User)

  /** `getAllUsers`: every stored record. */
  function GetAllUsers(s: Store): (r: seq<User>)
    ensures |r| == |s|
    ensures forall u :: u in r <==> u in s.Values
    ensures IdsAscending(r)
  {
    FindAll(s)
  }

  /**
   * `createUser`: refuse a user born after the latest admissible birth date;
   * otherwise save the user under `newId`, the id the store generates for it.
   */
  function CreateUser(s: Store, policy: Policy, user: User, newId: int): (r: Result<Saved, Failure>)
    ensures r.Err? <==> IsAfter(user.birthDate, policy.minBirthDate)
    ensures r.Err? ==> r.error == TooYoung(policy.minUserAge)
    ensures r.Ok? ==> r.value.user.id == newId
    ensures r.Ok? ==> forall f :: Get(r.value.user, f) == Get(user, f)
    ensures r.Ok? ==> r.value.store.Keys == s.Keys + {newId}
    ensures r.Ok? ==> r.value.store[newId] == r.value.user
    ensures r.Ok? ==> forall k :: k in s && k != newId ==> r.value.store[k] == s[k]
  {
    if IsAfter(user.birthDate, policy.minBirthDate) then
      Err(TooYoung(policy.minUserAge))
    else
      var stored := user.(id := newId);
      Ok(Saved(Save(s, stored), stored))
  }

  /**
   * `updateUser`: look the record up, walk the update map over it, and save
   * the result only if the whole walk succeeds.
   */
  function UpdateUser(s: Store, id: int, updates: seq<Update>): (r: Result<Saved, Failure>)
    ensures id !in s ==> r == Err(NotFound(id))
    ensures id in s ==> (r.Ok? <==> AllAdmissible(updates))
    ensures id in s && r.Err? ==> exists i ::
      && 0 <= i < |updates|
      && !Admissible(updates[i])
      && AllAdmissible(updates[..i])
      && r.error == EntryFailure(updates[i])
    ensures r.Ok? ==> r.value.user.id == id
    ensures r.Ok? ==> forall f :: Untouched(updates, f) ==> Get(r.value.user, f) == Get(s[id], f)
    ensures r.Ok? ==> forall f, i :: LastNaming(updates, i, f) ==> Get(r.value.user, f) == updates[i].value
    ensures r.Ok? ==> r.value.store.Keys == s.Keys
    ensures r.Ok? ==> r.value.store[id] == r.value.user
    ensures r.Ok? ==> forall k :: k in s && k != id ==> r.value.store[k] == s[k]
  {
    match FindById(s, id)
    case None => Err(NotFound(id))
    case Some(existing) =>
      ApplyAllSucceeds(existing, updates);
      match ApplyAll(existing, updates)
      case Err(f) =>
        ApplyAllFailsAtFirstBadEntry(existing, updates);
        Err(f)
      case Ok(patched) =>
        ApplyAllEffect(existing, updates);
        Ok(Saved(Save(s, patched), patched))
  }

  /**
   * `updateAllUserFields`: look the record up and overwrite all six mutable
   * fields from `user`; the stored id is kept and `user.id` is ignored.
   */
  function UpdateAllUserFields(s: Store, id: int, user: User): (r: Result<Saved, Failure>)
    ensures r.Err? <==> id !in s
    ensures r.Err? ==> r.error == NotFound(id)
    ensures r.Ok? ==> r.value.user.id == id
    ensures r.Ok? ==> forall f :: Get(r.value.user, f) == Get(user, f)
    ensures r.Ok? ==> r.value.store.Keys == s.Keys
    ensures r.Ok? ==> r.value.store[id] == r.value.user
    ensures r.Ok? ==> forall k :: k in s && k != id ==> r.value.store[k] == s[k]
  {
    match FindById(s, id)
    case None => Err(NotFound(id))
    case Some(existing) =>
      var replaced := existing.(
        email := user.email,
        firstName := user.firstName,
        lastName := user.lastName,
        birthDate := user.birthDate,
        address := user.address,
        phoneNumber := user.phoneNumber);
      Ok(Saved(Save(s, replaced), replaced))
  }

  /** `deleteUser`: refuse an id that is not stored, otherwise remove that one row. */
  function DeleteUser(s: Store, id: int): (r: Result<Store, Failure>)
    ensures r.Err? <==> id !in s
    ensures r.Err? ==> r.error == NotFound(id)
    ensures r.Ok? ==> r.value.Keys == s.Keys - {id}
    ensures r.Ok? ==> forall k :: k in r.value ==> r.value[k] == s[k]
  {
    if !ExistsById(s, id) then Err(NotFound(id)) else Ok(DeleteById(s, id))
  }

  /**
   * `searchUsersByBirthDateRange`: refuse an inverted window without querying;
   * otherwise the stored records born inside the inclusive window.
   */
  function SearchUsersByBirthDateRange(s: Store, from: Date, to: Date): (r: Result<seq<User>, Failure>)
    ensures r.Err? <==> IsAfter(from, to)
    ensures r.Err? ==> r.error == InvertedRange
    ensures r.Ok? ==> forall u :: u in r.value <==> u in s.Values && InWindow(u.birthDate, from, to)
    ensures r.Ok? ==> IdsAscending(r.value)
  {
    if IsAfter(from, to) then Err(InvertedRange) else Ok(FindByBirthDateBetween(s, from, to))
  }
}
