/**
  The registry ("nakama"): a dictionary from chat-user id to streaming-platform
  username. Python dictionaries remember insertion order, and the poll cycle
  visits the entries in that order, so the registry is modelled as the sequence
  of its entries; `AsMap` gives the dictionary view. Keys are unique.
 */
module Registry {

  type UserId = string
  type Username = string

  /** One registration: a chat user and the username tracked for them. */
  datatype Entry = Entry(id: UserId, username: Username)

  /** The contents of the backing file as the loader sees them. */
  datatype StoreFile =
    | Missing                  // opening it raises FileNotFoundError
    | Corrupt                  // its text is rejected by json.load with JSONDecodeError
    | Json(pairs: seq<Entry>)  // a JSON object, its members in file order

  /** The dictionary invariant: no id occurs twice. */
  ghost predicate UniqueIds(es: seq<Entry>)
  {
    forall i, j :: 0 <= i < j < |es| ==> es[i].id != es[j].id
  }

  /**
    The dictionary a sequence of entries denotes when they are inserted one after
    another: a later entry for the same id overrides an earlier one.
   */
  function AsMap(es: seq<Entry>): (m: map<UserId, Username>)
    ensures forall i :: 0 <= i < |es| ==> es[i].id in m
  {
    if es == [] then map[]
    else
      var n := |es| - 1;
      assert forall i :: 0 <= i < n ==> es[..n][i] == es[i];
      AsMap(es[..n])[es[n].id := es[n].username]
  }

  /** Every key of the dictionary view is the id of some entry. */
  lemma {:induction false} AsMapKey(es: seq<Entry>, k: UserId) returns (i: nat)
    requires k in AsMap(es)
    ensures i < |es| && es[i].id == k
  {
    var n := |es| - 1;
    if es[n].id == k {
      i := n;
    } else {
      i := AsMapKey(es[..n], k);
    }
  }

  /** An id that no entry carries is not a key of the dictionary view. */
  lemma {:induction false} AsMapAbsent(es: seq<Entry>, k: UserId)
    requires forall i :: 0 <= i < |es| ==> es[i].id != k
    ensures k !in AsMap(es)
  {
    if es != [] {
      var n := |es| - 1;
      AsMapAbsent(es[..n], k);
    }
  }

  /** Contrapositive of `AsMapKey`: a non-key is the id of no entry. */
  lemma AsMapAbsentAll(es: seq<Entry>, k: UserId)
    requires k !in AsMap(es)
    ensures forall i :: 0 <= i < |es| ==> es[i].id != k
  {
  }

  /** In a registry with unique ids, the last entry's id is not a key of the entries before it. */
  lemma LastIdIsNew(es: seq<Entry>)
    requires es != []
    ensures UniqueIds(es) ==> es[|es| - 1].id !in AsMap(es[..|es| - 1])
  {
    if UniqueIds(es) {
      AsMapAbsent(es[..|es| - 1], es[|es| - 1].id);
    }
  }

  /** In a registry with unique ids, each entry's id maps to that entry's username. */
  lemma {:induction false} AsMapAt(es: seq<Entry>, i: nat)
    requires UniqueIds(es)
    requires i < |es|
    ensures es[i].id in AsMap(es) && AsMap(es)[es[i].id] == es[i].username
  {
    var n := |es| - 1;
    if i < n {
      assert es[..n][i] == es[i];
      AsMapAt(es[..n], i);
    }
  }

  /**
    Registration `nakama[id] = name` (bot.py:65): an existing entry for `id` is
    overwritten where it stands; a new id is appended at the end.
   */
  function Put(es: seq<Entry>, id: UserId, name: Username): (r: seq<Entry>)
    requires UniqueIds(es)
    ensures UniqueIds(r)
    ensures AsMap(r) == AsMap(es)[id := name]
    ensures |r| == if id in AsMap(es) then |es| else |es| + 1
    ensures forall i :: 0 <= i < |es| ==> r[i].id == es[i].id
    ensures forall i :: 0 <= i < |es| && es[i].id != id ==> r[i] == es[i]
    ensures id !in AsMap(es) ==> r[|es|] == Entry(id, name)
  {
    if id in AsMap(es) then
      var r := seq(|es|, i requires 0 <= i < |es| => if es[i].id == id then Entry(id, name) else es[i]);
      PutMap(es, id, name, r);
      r
    else
      var r := es + [Entry(id, name)];
      assert r[..|es|] == es;
      r
  }

  /** The overwrite-in-place branch of `Put` updates the dictionary view at `id` only. */
  lemma PutMap(es: seq<Entry>, id: UserId, name: Username, r: seq<Entry>)
    requires UniqueIds(es)
    requires |r| == |es|
    requires forall i :: 0 <= i < |es| ==> r[i] == if es[i].id == id then Entry(id, name) else es[i]
    requires id in AsMap(es)
    ensures UniqueIds(r)
    ensures AsMap(r) == AsMap(es)[id := name]
  {
    assert forall i :: 0 <= i < |es| ==> r[i].id == es[i].id;
    forall k | k in AsMap(r)
      ensures k in AsMap(es) && AsMap(r)[k] == AsMap(es)[id := name][k]
    {
      var i := AsMapKey(r, k);
      AsMapAt(r, i);
      AsMapAt(es, i);
    }
    forall k | k in AsMap(es)
      ensures k in AsMap(r)
    {
      var i := AsMapKey(es, k);
    }
  }

  /**
    Building the dictionary from the members of a JSON object, one insertion
    after another.
   */
  function InsertAll(ps: seq<Entry>): (r: seq<Entry>)
    ensures UniqueIds(r)
    ensures AsMap(r) == AsMap(ps)
    ensures UniqueIds(ps) ==> r == ps
  {
    if ps == [] then []
    else
      var n := |ps| - 1;
      var prefix := InsertAll(ps[..n]);
      LastIdIsNew(ps);
      assert ps[..n] + [ps[n]] == ps;
      Put(prefix, ps[n].id, ps[n].username)
  }

  /**
    The index of the first entry in `ps` whose id is `k`: the place a key takes
    when the dictionary is built from `ps`.
   */
  function FirstIndex(ps: seq<Entry>, k: UserId): (i: nat)
    requires k in AsMap(ps)
    ensures i < |ps| && ps[i].id == k
    ensures forall j :: 0 <= j < i ==> ps[j].id != k
  {
    var n := |ps| - 1;
    if k in AsMap(ps[..n]) then
      var i := FirstIndex(ps[..n], k);
      assert ps[..n][i] == ps[i];
      assert forall j :: 0 <= j < i ==> ps[..n][j] == ps[j];
      i
    else
      AsMapAbsentAll(ps[..n], k);
      assert forall j :: 0 <= j < n ==> ps[..n][j] == ps[j];
      n
  }

  /**
    A key repeated in the file keeps the place of its first occurrence: the
    registry lists its ids in the order of their first occurrences in `ps`.
   */
  lemma {:induction false} InsertAllKeepsFirstPlace(ps: seq<Entry>, i: nat, j: nat)
    requires i < j < |InsertAll(ps)|
    ensures InsertAll(ps)[i].id in AsMap(ps) && InsertAll(ps)[j].id in AsMap(ps)
    ensures FirstIndex(ps, InsertAll(ps)[i].id) < FirstIndex(ps, InsertAll(ps)[j].id)
  {
    var n := |ps| - 1;
    var before := InsertAll(ps[..n]);
    var r := InsertAll(ps);
    var k := ps[n].id;
    assert r == Put(before, k, ps[n].username);
    assert AsMap(before) == AsMap(ps[..n]);
    assert r[i].id == before[i].id && before[i].id in AsMap(ps[..n]);
    FirstIndexPrefix(ps, r[i].id);
    if j < |before| {
      assert r[j].id == before[j].id;
      FirstIndexPrefix(ps, r[j].id);
      InsertAllKeepsFirstPlace(ps[..n], i, j);
    } else {
      assert k !in AsMap(ps[..n]) && r[j].id == k;
      assert FirstIndex(ps, k) == n;
      assert FirstIndex(ps[..n], before[i].id) < n;
    }
  }

  /** A key already present before the last entry keeps its first index. */
  lemma FirstIndexPrefix(ps: seq<Entry>, k: UserId)
    requires ps != [] && k in AsMap(ps[..|ps| - 1])
    ensures k in AsMap(ps) && FirstIndex(ps, k) == FirstIndex(ps[..|ps| - 1], k)
  {
  }

  /**
    Startup load (bot.py:22-26): a missing file, or text that the JSON parser
    rejects, gives the empty
    registry; otherwise the registry holds the file's members.
   */
  function Load(f: StoreFile): (r: seq<Entry>)
    ensures UniqueIds(r)
    ensures f.Missing? || f.Corrupt? ==> r == []
    ensures f.Json? ==> AsMap(r) == AsMap(f.pairs)
    ensures f.Json? && UniqueIds(f.pairs) ==> r == f.pairs
  {
    match f
    case Missing => []
    case Corrupt => []
    case Json(ps) => InsertAll(ps)
  }

  /** `save_nakama` (bot.py:30-32): the whole dictionary is written back, in order. */
  function Save(es: seq<Entry>): (f: StoreFile)
    requires UniqueIds(es)
    ensures Load(f) == es
  {
    Json(es)
  }

  /** After `Put`, the id is a key of the dictionary view. */
  lemma PutHasKey(es: seq<Entry>, id: UserId, name: Username)
    requires UniqueIds(es)
    ensures id in AsMap(Put(es, id, name))
  {
    var r := Put(es, id, name);
    assert AsMap(r) == AsMap(es)[id := name];
  }

  /** Two updates at the same key leave only the second. */
  lemma OverwriteTwice(m: map<UserId, Username>, k: UserId, a: Username, b: Username)
    ensures m[k := a][k := b] == m[k := b]
  {
  }

  /** Two registries with the same ids in the same order and the same dictionary view are equal. */
  lemma SameKeysSameEntries(a: seq<Entry>, b: seq<Entry>)
    requires UniqueIds(a) && UniqueIds(b)
    requires |a| == |b|
    requires forall i :: 0 <= i < |a| ==> a[i].id == b[i].id
    requires AsMap(a) == AsMap(b)
    ensures a == b
  {
    forall i | 0 <= i < |a|
      ensures a[i] == b[i]
    {
      AsMapAt(a, i);
      AsMapAt(b, i);
    }
  }

  /** Re-registering a chat user keeps only the latest username, in the first registration's place (bot.py:65). */
  lemma ReRegisterKeepsLatest(es: seq<Entry>, id: UserId, first: Username, second: Username)
    requires UniqueIds(es)
    ensures var twice := Put(Put(es, id, first), id, second);
      AsMap(twice) == AsMap(es)[id := second] && twice == Put(es, id, second)
  {
    var once := Put(es, id, first);
    var twice := Put(once, id, second);
    var direct := Put(es, id, second);
    PutHasKey(es, id, first);
    assert AsMap(twice) == AsMap(once)[id := second];
    assert AsMap(once) == AsMap(es)[id := first];
    OverwriteTwice(AsMap(es), id, first, second);
    assert forall i :: 0 <= i < |es| ==> twice[i].id == direct[i].id;
    if id !in AsMap(es) {
      assert twice[|es|].id == direct[|es|].id;
    }
    SameKeysSameEntries(twice, direct);
  }
}
