/**
 * The `User` entity and its six mutable fields, addressed by name the way the
 * partial update addresses them.
 */
module Users {
  import opened Results
  import opened Dates

  /** One stored person.  `id` is the key the store assigned; the rest is profile data. */
  datatype User = User(
    id: int,
    email: string,
    firstName: string,
    lastName: string,
    birthDate: Date,
    address: string,
    phoneNumber: string)

  /** The fields a client may change; `id` is deliberately not among them. */
  datatype Field = Email | FirstName | LastName | BirthDate | Address | PhoneNumber

  /** A value for a field: text for the five string fields, a date for `birthDate`. */
  datatype FieldValue = Text(text: string) | Day(date: Date)

  /** The JSON / map key that names a field. */
  function FieldName(f: Field): string {
    match f
    case Email => "email"
    case FirstName => "firstName"
    case LastName => "lastName"
    case BirthDate => "birthDate"
    case Address => "address"
    case PhoneNumber => "phoneNumber"
  }

  /** The field a key names, if any: the dispatch of the partial update's `switch`. */
  function FieldOf(key: string): (r: Option<Field>)
    ensures r.Some? ==> FieldName(r.value) == key
  {
    if key == "email" then Some(Email)
    else if key == "firstName" then Some(FirstName)
    else if key == "lastName" then Some(LastName)
    else if key == "birthDate" then Some(BirthDate)
    else if key == "address" then Some(Address)
    else if key == "phoneNumber" then Some(PhoneNumber)
    else None
  }

  /** Every field's name dispatches back to that field, so names and fields correspond one to one. */
  lemma FieldNameRoundTrip(f: Field, key: string)
    ensures FieldOf(FieldName(f)) == Some(f)
    ensures FieldOf(key) == Some(f) <==> key == FieldName(f)
  {
  }

  /** A value can be stored in a field exactly when its kind is the field's kind. */
  predicate Fits(f: Field, v: FieldValue) {
    if f == BirthDate then v.Day? else v.Text?
  }

  /** The current value of field `f` of `u`. */
  function Get(u: User, f: Field): (v: FieldValue)
    ensures Fits(f, v)
  {
    match f
    case Email => Text(u.email)
    case FirstName => Text(u.firstName)
    case LastName => Text(u.lastName)
    case BirthDate => Day(u.birthDate)
    case Address => Text(u.address)
    case PhoneNumber => Text(u.phoneNumber)
  }

  /** The setter for field `f`: `u` with that one field replaced by `v`. */
  function Set(u: User, f: Field, v: FieldValue): (r: User)
    requires Fits(f, v)
    ensures r.id == u.id
    ensures Get(r, f) == v
    ensures forall g :: g != f ==> Get(r, g) == Get(u, g)
  {
    match f
    case Email => u.(email := v.text)
    case FirstName => u.(firstName := v.text)
    case LastName => u.(lastName := v.text)
    case BirthDate => u.(birthDate := v.date)
    case Address => u.(address := v.text)
    case PhoneNumber => u.(phoneNumber := v.text)
  }

  /** A user is determined by its id and the values of its six fields. */
  lemma Extensionality(u: User, w: User)
    requires u.id == w.id
    requires forall f :: Get(u, f) == Get(w, f)
    ensures u == w
  {
    assert Get(u, Email) == Get(w, Email);
    assert Get(u, FirstName) == Get(w, FirstName);
    assert Get(u, LastName) == Get(w, LastName);
    assert Get(u, BirthDate) == Get(w, BirthDate);
    assert Get(u, Address) == Get(w, Address);
    assert Get(u, PhoneNumber) == Get(w, PhoneNumber);
  }
}
