/**
 * The partial update: a key -> value map, walked in its iteration order, each
 * entry dispatched on its key to one field setter.  The first entry that
 * cannot be applied aborts the whole walk.
 */
module Patching {
  import opened Results
  import opened Users
  import opened Failures

  /** One entry of the update map. */
  datatype Update = Update(key: string, value: FieldValue)

  /** The entry names a patchable field and carries a value of that field's kind. */
  predicate Admissible(e: Update) {
    FieldOf(e.key).Some? && Fits(FieldOf(e.key).value, e.value)
  }

  /** Every entry of the map is admissible. */
  predicate AllAdmissible(ups: seq<Update>) {
    forall i :: 0 <= i < |ups| ==> Admissible(ups[i])
  }

  /** The exception an inadmissible entry raises: an unknown key, or a failed cast. */
  function EntryFailure(e: Update): (f: Failure)
    requires !Admissible(e)
    ensures f.InvalidField? <==> forall g :: e.key != FieldName(g)
    ensures f.ValueTypeMismatch? <==> exists g :: e.key == FieldName(g) && !Fits(g, e.value)
    ensures f.InvalidField? || f.ValueTypeMismatch?
    ensures f.key == e.key
  {
    if FieldOf(e.key).None? then InvalidField(e.key) else ValueTypeMismatch(e.key)
  }

  /** One case of the `switch`: apply the setter the key names, or throw. */
  function ApplyEntry(u: User, e: Update): (r: Result<User, Failure>)
    ensures r.Ok? <==> exists g :: FieldName(g) == e.key && Fits(g, e.value)
    ensures r.Err? ==> !Admissible(e) && r.error == EntryFailure(e)
    ensures r.Ok? ==> r.value.id == u.id
    ensures r.Ok? ==> forall g :: Get(r.value, g) == (if FieldName(g) == e.key then e.value else Get(u, g))
  {
    match FieldOf(e.key)
    case None => Err(InvalidField(e.key))
    case Some(f) =>
      if Fits(f, e.value) then Ok(Set(u, f, e.value)) else Err(ValueTypeMismatch(e.key))
  }

  /** The `forEach` over the update map: the entries applied left to right. */
  function ApplyAll(u: User, ups: seq<Update>): Result<User, Failure>
    decreases |ups|
  {
    if ups == [] then Ok(u)
    else
      match ApplyEntry(u, ups[0])
      case Err(f) => Err(f)
      case Ok(u') => ApplyAll(u', ups[1..])
  }

  /** Entry `i` is the last one in `ups` that names field `f`. */
  predicate LastNaming(ups: seq<Update>, i: int, f: Field) {
    && 0 <= i < |ups|
    && FieldOf(ups[i].key) == Some(f)
    && forall j :: i < j < |ups| ==> FieldOf(ups[j].key) != Some(f)
  }

  /** No entry of `ups` names field `f`. */
  predicate Untouched(ups: seq<Update>, f: Field) {
    forall i :: 0 <= i < |ups| ==> FieldOf(ups[i].key) != Some(f)
  }

  /** The walk succeeds exactly when every entry is admissible. */
  lemma {:induction false} ApplyAllSucceeds(u: User, ups: seq<Update>)
    ensures ApplyAll(u, ups).Ok? <==> AllAdmissible(ups)
    decreases |ups|
  {
    if ups != [] {
      var r := ApplyEntry(u, ups[0]);
      if r.Ok? {
        ApplyAllSucceeds(r.value, ups[1..]);
        assert AllAdmissible(ups) <==> AllAdmissible(ups[1..]) by {
          assert forall i :: 1 <= i < |ups| ==> ups[i] == ups[1..][i - 1];
        }
      }
    }
  }

  /** A failed walk reports the first inadmissible entry, every entry before it being admissible. */
  lemma {:induction false} ApplyAllFailsAtFirstBadEntry(u: User, ups: seq<Update>)
    requires ApplyAll(u, ups).Err?
    ensures exists i ::
      && 0 <= i < |ups|
      && !Admissible(ups[i])
      && AllAdmissible(ups[..i])
      && ApplyAll(u, ups).error == EntryFailure(ups[i])
    decreases |ups|
  {
    var r := ApplyEntry(u, ups[0]);
    if r.Err? {
      assert AllAdmissible(ups[..0]);
    } else {
      var rest := ups[1..];
      ApplyAllFailsAtFirstBadEntry(r.value, rest);
      var i :| 0 <= i < |rest| && !Admissible(rest[i]) && AllAdmissible(rest[..i])
        && ApplyAll(r.value, rest).error == EntryFailure(rest[i]);
      assert ups[i + 1] == rest[i];
      var pre, restPre := ups[..i + 1], rest[..i];
      forall j | 1 <= j < |pre|
        ensures Admissible(pre[j])
      {
        assert pre[j] == restPre[j - 1];
      }
      assert AllAdmissible(pre);
    }
  }

  /**
   * A successful walk keeps the id, gives each named field the value of the
   * last entry naming it, and leaves every unnamed field as it was.
   */
  lemma {:induction false} ApplyAllEffect(u: User, ups: seq<Update>)
    requires ApplyAll(u, ups).Ok?
    ensures ApplyAll(u, ups).value.id == u.id
    ensures forall f :: Untouched(ups, f) ==> Get(ApplyAll(u, ups).value, f) == Get(u, f)
    ensures forall f, i :: LastNaming(ups, i, f) ==> Get(ApplyAll(u, ups).value, f) == ups[i].value
    decreases |ups|
  {
    if ups != [] {
      var u' := ApplyEntry(u, ups[0]).value;
      var rest := ups[1..];
      ApplyAllEffect(u', rest);
      var r := ApplyAll(u, ups).value;
      assert r == ApplyAll(u', rest).value;
      forall f | Untouched(ups, f)
        ensures Get(r, f) == Get(u, f)
      {
        assert FieldOf(ups[0].key) != Some(f);
        assert Untouched(rest, f) by {
          assert forall i :: 0 <= i < |rest| ==> rest[i] == ups[i + 1];
        }
      }
      forall f, i | LastNaming(ups, i, f)
        ensures Get(r, f) == ups[i].value
      {
        if i == 0 {
          assert Untouched(rest, f) by {
            assert forall j :: 0 <= j < |rest| ==> rest[j] == ups[j + 1];
          }
        } else {
          assert LastNaming(rest, i - 1, f) by {
            assert forall j :: 0 <= j < |rest| ==> rest[j] == ups[j + 1];
          }
        }
      }
    }
  }

  /** Applying the same update map twice gives what applying it once gives. */
  lemma ApplyAllIdempotent(u: User, ups: seq<Update>)
    requires ApplyAll(u, ups).Ok?
    ensures ApplyAll(ApplyAll(u, ups).value, ups) == ApplyAll(u, ups)
  {
    var once := ApplyAll(u, ups).value;
    ApplyAllEffect(u, ups);
    ApplyAllSucceeds(u, ups);
    ApplyAllSucceeds(once, ups);
    ApplyAllEffect(once, ups);
    var twice := ApplyAll(once, ups).value;
    forall f
      ensures Get(twice, f) == Get(once, f)
    {
      if !Untouched(ups, f) {
        LastNamingExists(ups, f);
      }
    }
    Extensionality(twice, once);
  }

  /** A field that some entry names has a last entry naming it. */
  lemma {:induction false} LastNamingExists(ups: seq<Update>, f: Field)
    requires !Untouched(ups, f)
    ensures exists i :: LastNaming(ups, i, f)
    decreases |ups|
  {
    var n := |ups| - 1;
    if FieldOf(ups[n].key) == Some(f) {
      assert LastNaming(ups, n, f);
    } else {
      var front := ups[..n];
      assert !Untouched(front, f) by {
        var i :| 0 <= i < |ups| && FieldOf(ups[i].key) == Some(f);
        assert i < n && front[i] == ups[i];
      }
      LastNamingExists(front, f);
      var i :| LastNaming(front, i, f);
      assert LastNaming(ups, i, f) by {
        assert forall j :: 0 <= j < n ==> front[j] == ups[j];
      }
    }
  }
}
