/**
 * The persistence gateway as an abstract store: a finite map from id to the
 * stored record, with the handful of queries the service issues.
 */
module Repository {
  import opened Results
  import opened Dates
  import opened Users

  /** Every row is filed under its own id. */
  predicate WellFormed(s: map<int, User>) {
    forall k :: k in s ==> s[k].id == k
  }

  /** The table: rows keyed by their primary key. */
  type Store = s: map<int, User> | WellFormed(s) witness map[]

  /** The ids in `xs` strictly increase. */
  predicate Ascending(xs: seq<int>) {
    forall i, j :: 0 <= i < j < |xs| ==> xs[i] < xs[j]
  }

  /** A non-empty set has a member. */
  lemma HasMember(ks: set<int>)
    requires ks != {}
    ensures exists k :: k in ks
  {
    if forall k :: k !in ks {
      assert false;
    }
  }

  /** `m` is the smallest id of `ks`. */
  predicate IsLeast(m: int, ks: set<int>) {
    m in ks && forall k :: k in ks ==> m <= k
  }

  /** Every finite non-empty set of ids has a least element. */
  lemma {:induction false} HasLeast(ks: set<int>)
    requires ks != {}
    ensures exists m :: IsLeast(m, ks)
    decreases |ks|
  {
    HasMember(ks);
    var x :| x in ks;
    var rest := ks - {x};
    assert forall k :: k in ks ==> k == x || k in rest;
    if rest == {} {
      assert IsLeast(x, ks);
    } else {
      HasLeast(rest);
      var m :| IsLeast(m, rest);
      assert IsLeast(if x < m then x else m, ks);
    }
  }

  /** The least id of a non-empty set. */
  function Least(ks: set<int>): (m: int)
    requires ks != {}
    ensures IsLeast(m, ks)
  {
    HasLeast(ks);
    var m :| IsLeast(m, ks);
    m
  }

  /** The ids of `ks`, each exactly once, in increasing order. */
  function SortedIds(ks: set<int>): (r: seq<int>)
    ensures |r| == |ks|
    ensures forall k :: k in ks <==> k in r
    ensures Ascending(r)
    decreases |ks|
  {
    if ks == {} then []
    else
      var m := Least(ks);
      [m] + SortedIds(ks - {m})
  }

  /** A member of a sequence sits at some index. */
  lemma HasIndex(ids: seq<int>, k: int)
    requires k in ids
    ensures exists i :: 0 <= i < |ids| && ids[i] == k
  {
  }

  /** A stored record is filed under some key. */
  lemma HasKey(s: Store, u: User)
    requires u in s.Values
    ensures exists k :: k in s && s[k] == u
  {
    if forall k :: k in s ==> s[k] != u {
      assert false;
    }
  }

  /** The rows of `s` under `ids`, position by position. */
  function RowsAt(s: Store, ids: seq<int>): (r: seq<User>)
    requires forall i :: 0 <= i < |ids| ==> ids[i] in s
    ensures |r| == |ids|
    ensures forall i :: 0 <= i < |ids| ==> r[i] == s[ids[i]] && r[i].id == ids[i]
  {
    seq(|ids|, i requires 0 <= i < |ids| => s[ids[i]])
  }

  /** Reading the rows under a list of all the keys yields exactly the stored records. */
  lemma RowsAtAllKeys(s: Store, ids: seq<int>)
    requires forall i :: 0 <= i < |ids| ==> ids[i] in s
    requires forall k :: k in s ==> k in ids
    ensures forall u :: u in RowsAt(s, ids) <==> u in s.Values
  {
    var r := RowsAt(s, ids);
    forall u | u in s.Values
      ensures u in r
    {
      HasKey(s, u);
      var k :| k in s && s[k] == u;
      HasIndex(ids, k);
      var i :| 0 <= i < |ids| && ids[i] == k;
      assert r[i] == u;
    }
  }

  /**
   * `findAll`: every stored record, listed in increasing id order.  (The
   * storage leaves the order open; the model fixes this one.)
   */
  function FindAll(s: Store): (r: seq<User>)
    ensures |r| == |s|
    ensures forall u :: u in r <==> u in s.Values
    ensures IdsAscending(r)
  {
    var ids := SortedIds(s.Keys);
    assert forall i :: 0 <= i < |ids| ==> ids[i] in ids;
    RowsAtAllKeys(s, ids);
    RowsAt(s, ids)
  }

  /** `findById`: the record filed under `id`, if there is one. */
  function FindById(s: Store, id: int): (r: Option<User>)
    ensures r.Some? <==> id in s
    ensures r.Some? ==> r.value == s[id]
  {
    if id in s then Some(s[id]) else None
  }

  /** `existsById`. */
  predicate ExistsById(s: Store, id: int) {
    FindById(s, id).Some?
  }

  /** `save` of a record that carries its id: an upsert under that id. */
  function Save(s: Store, u: User): (r: Store)
    ensures r.Keys == s.Keys + {u.id}
    ensures r[u.id] == u
    ensures forall k :: k in s && k != u.id ==> r[k] == s[k]
  {
    s[u.id := u]
  }

  /** `deleteById`: the store without the row filed under `id`. */
  function DeleteById(s: Store, id: int): (r: Store)
    ensures r.Keys == s.Keys - {id}
    ensures forall k :: k in r ==> r[k] == s[k]
  {
    s - {id}
  }

  /** Reading after a save sees the saved record under its id and the old rows elsewhere. */
  lemma FindByIdAfterSave(s: Store, u: User, k: int)
    ensures FindById(Save(s, u), k) == if k == u.id then Some(u) else FindById(s, k)
  {
  }

  /** Reading after a delete finds nothing under that id and the old rows elsewhere. */
  lemma FindByIdAfterDelete(s: Store, id: int, k: int)
    ensures FindById(DeleteById(s, id), k) == if k == id then None else FindById(s, k)
  {
  }

  /** The records of `us` have strictly increasing ids. */
  predicate IdsAscending(us: seq<User>) {
    forall i, j :: 0 <= i < j < |us| ==> us[i].id < us[j].id
  }

  /** Prepending a record whose id is below every id of an ascending list keeps it ascending. */
  lemma ConsAscending(x: User, us: seq<User>)
    requires IdsAscending(us)
    requires forall u :: u in us ==> x.id < u.id
    ensures IdsAscending([x] + us)
  {
  }

  /** In an ascending list the head's id is below every id of the tail. */
  lemma HeadBelowTail(us: seq<User>)
    requires |us| > 0 && IdsAscending(us)
    ensures IdsAscending(us[1..])
    ensures forall u :: u in us[1..] ==> us[0].id < u.id
  {
  }

  /** Keeps the records of `us` born inside `[from, to]`, in their order. */
  function BornWithin(us: seq<User>, from: Date, to: Date): (r: seq<User>)
    ensures |r| <= |us|
    ensures forall u :: u in r <==> u in us && InWindow(u.birthDate, from, to)
    ensures IdsAscending(us) ==> IdsAscending(r)
  {
    if us == [] then []
    else
      var rest := BornWithin(us[1..], from, to);
      if !InWindow(us[0].birthDate, from, to) then
        assert IdsAscending(us) ==> IdsAscending(rest) by {
          if IdsAscending(us) {
            HeadBelowTail(us);
          }
        }
        rest
      else
        assert IdsAscending(us) ==> IdsAscending([us[0]] + rest) by {
          if IdsAscending(us) {
            HeadBelowTail(us);
            ConsAscending(us[0], rest);
          }
        }
        [us[0]] + rest
  }

  /**
   * `findByBirthDateBetween(from, to)`: the stored records whose birth date
   * lies in the inclusive window, in the order `FindAll` lists them.
   */
  function FindByBirthDateBetween(s: Store, from: Date, to: Date): (r: seq<User>)
    ensures forall u :: u in r <==> u in s.Values && InWindow(u.birthDate, from, to)
    ensures IdsAscending(r)
  {
    BornWithin(FindAll(s), from, to)
  }
}
