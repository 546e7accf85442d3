/** The main process's in-memory record store: a list of records with numeric
    ids, created by `saveData`, changed by `updateData`, removed by
    `deleteData`, listed newest first by `getAllData`, and emptied by
    `initializeStorage` and `clearAllData`. The clock is a parameter. */
module DataStore {
  import opened Wrappers
  import opened Text
  import opened Extraction

  /** A stored record. `createdAt` and `updatedAt` are the clock readings, in
      milliseconds, whose `toISOString` renderings the source stores; the
      rendering keeps their order, which is all `getAllData` looks at. */
  datatype Record = Record(
    id: int,
    url: Value,
    title: Value,
    description: Value,
    image: Value,
    price: Value,
    verified: Value,
    createdAt: int,
    updatedAt: int)

  type Store = seq<Record>

  /** `initializeStorage()` and `clearAllData()`: the list is replaced by an empty one. */
  function Cleared(): Store {
    []
  }

  predicate UniqueIds(s: Store) {
    forall i, j :: 0 <= i < j < |s| ==> s[i].id != s[j].id
  }

  // ---------------------------------------------------------------- save

  /** `Math.max(...extractedData.map((item) => item.id))`. */
  function MaxId(s: Store): (r: int)
    requires |s| > 0
    ensures forall i :: 0 <= i < |s| ==> s[i].id <= r
    ensures exists i :: 0 <= i < |s| && s[i].id == r
  {
    if |s| == 1 then s[0].id
    else
      var m := MaxId(s[1..]);
      assert forall i :: 1 <= i < |s| ==> s[i] == s[1..][i - 1];
      if s[0].id >= m then s[0].id else m
  }

  /** The id `saveData` gives the next record: one more than the largest, or 1. */
  function NextId(s: Store): (r: int)
    ensures forall i :: 0 <= i < |s| ==> s[i].id < r
    ensures |s| == 0 ==> r == 1
    ensures |s| > 0 ==> exists i :: 0 <= i < |s| && s[i].id == r - 1
  {
    if |s| > 0 then MaxId(s) + 1 else 1
  }

  /** `saveData(data)`: a record with the next id, the five copied fields,
      `verified: false`, and both times set to now, appended to the list. */
  function Save(s: Store, data: Item, now: int): (r: (Record, Store))
    ensures r.1 == s + [r.0]
    ensures forall i :: 0 <= i < |s| ==> s[i].id < r.0.id
    ensures r.0 == Record(NextId(s), Prop(data, "url"), Prop(data, "title"), Prop(data, "description"),
                          Prop(data, "image"), Prop(data, "price"), Bool(false), now, now)
  {
    var rec := Record(NextId(s), Prop(data, "url"), Prop(data, "title"), Prop(data, "description"),
                      Prop(data, "image"), Prop(data, "price"), Bool(false), now, now);
    (rec, s + [rec])
  }

  /** A saved record keeps the ids distinct. */
  lemma SaveKeepsIdsUnique(s: Store, data: Item, now: int)
    requires UniqueIds(s)
    ensures UniqueIds(Save(s, data, now).1)
  {
  }

  /** Saving into a cleared store gives id 1, whatever was stored before. */
  lemma SaveAfterClear(data: Item, now: int)
    ensures Save(Cleared(), data, now).0.id == 1
    ensures |Save(Cleared(), data, now).1| == 1
  {
  }

  // ---------------------------------------------------------------- lookup

  /** `findIndex((item) => item.id === id)`: strict equality, so an id given
      as a string finds nothing. */
  function FindIndex(s: Store, id: Value): (r: Option<nat>)
    ensures r.Some? ==> r.value < |s| && Num(s[r.value].id) == id
    ensures r.Some? ==> forall j :: 0 <= j < r.value ==> Num(s[j].id) != id
    ensures r.None? <==> forall j :: 0 <= j < |s| ==> Num(s[j].id) != id
  {
    if |s| == 0 then None
    else if Num(s[0].id) == id then Some(0)
    else
      var r := FindIndex(s[1..], id);
      assert forall j :: 1 <= j < |s| ==> s[j] == s[1..][j - 1];
      match r
      case Some(k) => Some(k + 1)
      case None => None
  }

  /** The message of the error `updateData` and `deleteData` throw. */
  function NotFound(id: Value): string {
    "Item with id " + ToStr(id) + " not found"
  }

  // ---------------------------------------------------------------- update

  /** `{ ...item, title, description, image, price, verified: verified || false, updated_at }`. */
  function Overwrite(rec: Record, data: Item, now: int): (r: Record)
    ensures r.id == rec.id && r.url == rec.url && r.createdAt == rec.createdAt
    ensures r.title == Prop(data, "title") && r.description == Prop(data, "description")
    ensures r.image == Prop(data, "image") && r.price == Prop(data, "price")
    ensures Truthy(Prop(data, "verified")) ==> r.verified == Prop(data, "verified")
    ensures !Truthy(Prop(data, "verified")) ==> r.verified == Bool(false)
    ensures r.updatedAt == now
  {
    var v := Prop(data, "verified");
    rec.(title := Prop(data, "title"), description := Prop(data, "description"), image := Prop(data, "image"),
         price := Prop(data, "price"), verified := if Truthy(v) then v else Bool(false), updatedAt := now)
  }

  /** `updateData(id, data)`: the first record with the id is overwritten and
      `{ id, ...data }` returned; with no such record the error is thrown and
      the store stays as it was. */
  function Update(s: Store, id: Value, data: Item, now: int): (r: Result<(Item, Store), string>)
    ensures r.Failure? <==> FindIndex(s, id).None?
    ensures r.Failure? ==> r.error == NotFound(id)
    ensures r.Success? ==>
      var i := FindIndex(s, id).value;
      && |r.value.1| == |s|
      && r.value.1[i] == Overwrite(s[i], data, now)
      && (forall j :: 0 <= j < |s| && j != i ==> r.value.1[j] == s[j])
      && r.value.0.Keys == data.Keys + {"id"}
      && (forall k :: k in data ==> r.value.0[k] == data[k])
      && ("id" !in data ==> r.value.0["id"] == id)
  {
    match FindIndex(s, id)
    case None => Failure(NotFound(id))
    case Some(i) => Success((map["id" := id] + data, s[i := Overwrite(s[i], data, now)]))
  }

  /** Updating twice with the same data at the same time is updating once. */
  lemma UpdateIdempotent(s: Store, id: Value, data: Item, now: int)
    requires Update(s, id, data, now).Success?
    ensures Update(Update(s, id, data, now).value.1, id, data, now).Success?
    ensures Update(Update(s, id, data, now).value.1, id, data, now).value.1 == Update(s, id, data, now).value.1
  {
    var i := FindIndex(s, id).value;
    var t := Update(s, id, data, now).value.1;
    assert forall j :: 0 <= j < i ==> t[j] == s[j];
    assert FindIndex(t, id) == Some(i);
  }

  /** An update leaves the ids as they were, and so keeps them distinct. */
  lemma UpdateKeepsIds(s: Store, id: Value, data: Item, now: int)
    requires Update(s, id, data, now).Success?
    ensures forall j :: 0 <= j < |s| ==> Update(s, id, data, now).value.1[j].id == s[j].id
    ensures UniqueIds(s) ==> UniqueIds(Update(s, id, data, now).value.1)
  {
  }

  // ---------------------------------------------------------------- delete

  /** `deleteData(id)`: the first record with the id is spliced out and true
      returned; with no such record the error is thrown. */
  function Delete(s: Store, id: Value): (r: Result<(bool, Store), string>)
    ensures r.Failure? <==> FindIndex(s, id).None?
    ensures r.Failure? ==> r.error == NotFound(id)
    ensures r.Success? ==>
      var i := FindIndex(s, id).value;
      r.value.0 && r.value.1 == s[..i] + s[i + 1..]
  {
    match FindIndex(s, id)
    case None => Failure(NotFound(id))
    case Some(i) => Success((true, s[..i] + s[i + 1..]))
  }

  /** With distinct ids, no record with the id is left, every other record
      is, in order, and the ids stay distinct. */
  lemma DeleteRemovesExactly(s: Store, id: Value)
    requires UniqueIds(s) && Delete(s, id).Success?
    ensures var t := Delete(s, id).value.1;
      && |t| == |s| - 1
      && (forall j :: 0 <= j < |t| ==> Num(t[j].id) != id)
      && (forall x :: x in s && Num(x.id) != id ==> x in t)
      && UniqueIds(t)
  {
    var i := FindIndex(s, id).value;
    var t := Delete(s, id).value.1;
    assert forall j :: 0 <= j < |t| ==> t[j] == if j < i then s[j] else s[j + 1];
  }

  /** Deleting the record just saved gives back the store before the save. */
  lemma DeleteUndoesSave(s: Store, data: Item, now: int)
    ensures Delete(Save(s, data, now).1, Num(Save(s, data, now).0.id)) == Success((true, s))
  {
    var (rec, t) := Save(s, data, now);
    assert Num(t[|s|].id) == Num(rec.id);
    assert forall j :: 0 <= j < |s| ==> t[j] == s[j] && Num(t[j].id) != Num(rec.id);
    assert FindIndex(t, Num(rec.id)) == Some(|s|);
    assert t[..|s|] + t[|s| + 1..] == s;
  }

  // ---------------------------------------------------------------- listing

  predicate NewestFirst(s: Store) {
    forall i, j :: 0 <= i < j < |s| ==> s[i].createdAt >= s[j].createdAt
  }

  /** One step of the stable sort: `x`, the latest of the input so far, goes
      after every record at least as new. */
  function Insert(x: Record, sorted: Store): (r: Store)
    ensures multiset(r) == multiset(sorted) + multiset{x}
    decreases |sorted|
  {
    if |sorted| == 0 then [x]
    else if sorted[0].createdAt >= x.createdAt then
      assert sorted == [sorted[0]] + sorted[1..];
      [sorted[0]] + Insert(x, sorted[1..])
    else [x] + sorted
  }

  /** Inserting into a list sorted newest first keeps it sorted. */
  lemma {:induction false} InsertKeepsOrder(x: Record, sorted: Store)
    requires NewestFirst(sorted)
    ensures NewestFirst(Insert(x, sorted))
    decreases |sorted|
  {
    if |sorted| > 0 {
      if sorted[0].createdAt >= x.createdAt {
        var tail := sorted[1..];
        assert NewestFirst(tail) by {
          assert forall i :: 0 <= i < |tail| ==> tail[i] == sorted[i + 1];
        }
        InsertKeepsOrder(x, tail);
        var rest := Insert(x, tail);
        forall y | y in rest ensures sorted[0].createdAt >= y.createdAt {
          assert y in multiset(rest);
          if y != x {
            var k :| 0 <= k < |tail| && tail[k] == y;
            assert tail[k] == sorted[k + 1];
          }
        }
        ConsNewestFirst(sorted[0], rest);
      } else {
        forall y | y in sorted ensures x.createdAt >= y.createdAt {
          var k :| 0 <= k < |sorted| && sorted[k] == y;
          assert k == 0 || sorted[0].createdAt >= sorted[k].createdAt;
        }
        ConsNewestFirst(x, sorted);
      }
    }
  }

  lemma ConsNewestFirst(a: Record, rest: Store)
    requires NewestFirst(rest)
    requires forall y :: y in rest ==> a.createdAt >= y.createdAt
    ensures NewestFirst([a] + rest)
  {
    var r := [a] + rest;
    forall i, j | 0 <= i < j < |r| ensures r[i].createdAt >= r[j].createdAt {
      assert r[j] == rest[j - 1];
      if i > 0 {
        assert r[i] == rest[i - 1];
      }
    }
  }

  /** `getAllData()`: a copy of the list sorted by creation time, newest first.
      `Array.prototype.sort` is stable, so records created at the same time
      keep their stored order. */
  function GetAll(s: Store): (r: Store)
    ensures NewestFirst(r)
    ensures multiset(r) == multiset(s)
    ensures |r| == |s|
    ensures forall t :: SameTime(r, t) == SameTime(s, t)
  {
    if |s| == 0 then []
    else
      var n := |s| - 1;
      var g := GetAll(s[..n]);
      var r := Insert(s[n], g);
      InsertKeepsOrder(s[n], g);
      assert multiset(s) == multiset(s[..n]) + multiset{s[n]} by {
        assert s == s[..n] + [s[n]];
      }
      assert |r| == |multiset(r)| == |multiset(s)| == |s|;
      InsertStableAll(s, g, r);
      r
  }

  /** The records created at time `t`, in their order in `s`. */
  function SameTime(s: Store, t: int): (r: Store)
    ensures |r| <= |s|
  {
    if |s| == 0 then []
    else (if s[0].createdAt == t then [s[0]] else []) + SameTime(s[1..], t)
  }

  lemma SameTimeCons(x: Record, s: Store, t: int)
    ensures SameTime([x] + s, t) == (if x.createdAt == t then [x] else []) + SameTime(s, t)
  {
    assert ([x] + s)[1..] == s;
  }

  /** Nothing is created at a time later than every record. */
  lemma {:induction false} SameTimeNone(s: Store, t: int)
    requires forall i :: 0 <= i < |s| ==> s[i].createdAt < t
    ensures SameTime(s, t) == []
    decreases |s|
  {
    if |s| > 0 {
      assert s[0].createdAt < t;
      SameTimeNone(s[1..], t);
    }
  }

  lemma {:induction false} SameTimeAppend(a: Store, b: Store, t: int)
    ensures SameTime(a + b, t) == SameTime(a, t) + SameTime(b, t)
    decreases |a|
  {
    if |a| == 0 {
      assert a + b == b;
    } else {
      SameTimeAppend(a[1..], b, t);
      assert a + b == [a[0]] + (a[1..] + b);
      assert a == [a[0]] + a[1..];
      SameTimeCons(a[0], a[1..] + b, t);
      SameTimeCons(a[0], a[1..], t);
    }
  }

  /** Insertion puts `x` after every record created at the same time. */
  lemma {:induction false} InsertStable(x: Record, sorted: Store, t: int)
    requires NewestFirst(sorted)
    ensures SameTime(Insert(x, sorted), t) == SameTime(sorted, t) + (if x.createdAt == t then [x] else [])
    decreases |sorted|
  {
    if |sorted| > 0 {
      if sorted[0].createdAt >= x.createdAt {
        NewestFirstTail(sorted);
        InsertStable(x, sorted[1..], t);
        assert sorted == [sorted[0]] + sorted[1..];
        InsertStablePast(x, sorted[0], sorted[1..], t);
      } else {
        InsertStableFront(x, sorted, t);
      }
    }
  }

  lemma NewestFirstTail(s: Store)
    requires |s| > 0 && NewestFirst(s)
    ensures NewestFirst(s[1..])
  {
    assert forall i :: 0 <= i < |s| - 1 ==> s[1..][i] == s[i + 1];
  }

  /** Insertion passing a record at least as new as `x`. */
  lemma InsertStablePast(x: Record, s0: Record, tail: Store, t: int)
    requires s0.createdAt >= x.createdAt
    requires SameTime(Insert(x, tail), t) == SameTime(tail, t) + (if x.createdAt == t then [x] else [])
    ensures SameTime(Insert(x, [s0] + tail), t) == SameTime([s0] + tail, t) + (if x.createdAt == t then [x] else [])
  {
    var s := [s0] + tail;
    assert s[0] == s0 && s[1..] == tail;
    assert Insert(x, s) == [s0] + Insert(x, tail);
    SameTimeCons(s0, Insert(x, tail), t);
    SameTimeCons(s0, tail, t);
    var a, b, c := (if s0.createdAt == t then [s0] else []), SameTime(tail, t), (if x.createdAt == t then [x] else []);
    assert a + (b + c) == (a + b) + c;
  }

  /** Insertion in front of records all older than `x`. */
  lemma InsertStableFront(x: Record, sorted: Store, t: int)
    requires NewestFirst(sorted) && |sorted| > 0 && sorted[0].createdAt < x.createdAt
    ensures SameTime(Insert(x, sorted), t) == SameTime(sorted, t) + (if x.createdAt == t then [x] else [])
  {
    assert Insert(x, sorted) == [x] + sorted;
    SameTimeCons(x, sorted, t);
    if x.createdAt == t {
      assert forall i :: 0 <= i < |sorted| ==> sorted[0].createdAt >= sorted[i].createdAt;
      SameTimeNone(sorted, t);
    }
  }

  /** One step of `GetAll` keeps each time's records in their stored order. */
  lemma InsertStableAll(s: Store, g: Store, r: Store)
    requires |s| > 0 && NewestFirst(g) && r == Insert(s[|s| - 1], g)
    requires forall t :: SameTime(g, t) == SameTime(s[..|s| - 1], t)
    ensures forall t :: SameTime(r, t) == SameTime(s, t)
  {
    var n := |s| - 1;
    assert s == s[..n] + [s[n]];
    forall t
      ensures SameTime(r, t) == SameTime(s, t)
    {
      InsertStable(s[n], g, t);
      SameTimeAppend(s[..n], [s[n]], t);
      assert SameTime([s[n]], t) == if s[n].createdAt == t then [s[n]] else [];
    }
  }

  /** Listing after clearing gives nothing. */
  lemma ListAfterClear()
    ensures GetAll(Cleared()) == []
  {
  }
}
