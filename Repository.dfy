/** The repository the service works against: a table of stored records keyed
    by identifier, with the lookups, the upsert and the removal the service
    calls. */
module Repository {
  import opened Beers

  type Store = map<Id, Beer>

  /** Every record is stored under its own identifier. */
  predicate Keyed(s: Store)
  {
    forall k :: k in s ==> s[k].id == k
  }

  /** No two stored records share a name. */
  predicate UniqueNames(s: Store)
  {
    forall a, b :: a in s && b in s && s[a].name == s[b].name ==> a == b
  }

  predicate NameTaken(s: Store, name: string)
  {
    exists k :: k in s && s[k].name == name
  }

  function FindById(s: Store, id: Id): (r: Option<Beer>)
    ensures r.Some? <==> id in s
    ensures r.Some? ==> r.value == s[id]
  {
    if id in s then Some(s[id]) else None
  }

  /** The one record with the given name, if any (a repository whose names
      were not unique would refuse the query). */
  function FindByName(s: Store, name: string): (r: Option<Beer>)
    requires UniqueNames(s)
    ensures r.Some? <==> NameTaken(s, name)
    ensures r.Some? ==> r.value.name == name && exists k :: k in s && s[k] == r.value
  {
    if NameTaken(s, name) then
      var k :| k in s && s[k].name == name;
      Some(s[k])
    else
      None
  }

  /** Upsert: the record is stored under its own identifier, replacing any
      record stored there before. */
  function Save(s: Store, b: Beer): (r: Store)
    ensures r.Keys == s.Keys + {b.id} && r[b.id] == b
    ensures forall k :: k in s && k != b.id ==> r[k] == s[k]
  {
    s[b.id := b]
  }

  function DeleteById(s: Store, id: Id): (r: Store)
    ensures r.Keys == s.Keys - {id}
    ensures forall k :: k in r ==> r[k] == s[k]
  {
    s - {id}
  }

  /** The least of a non-empty set of identifiers. */
  function MinId(ids: set<Id>): (m: Id)
    requires ids != {}
    ensures m in ids && forall k :: k in ids ==> m <= k
  {
    MinIdExists(ids);
    var m :| m in ids && forall k :: k in ids ==> m <= k;
    m
  }

  lemma {:induction false} MinIdExists(ids: set<Id>)
    requires ids != {}
    ensures exists m :: m in ids && forall k :: k in ids ==> m <= k
    decreases ids
  {
    var x :| x in ids;
    if ids != {x} {
      MinIdExists(ids - {x});
      var m :| m in ids - {x} && forall k :: k in ids - {x} ==> m <= k;
      var least := if x < m then x else m;
      forall k | k in ids ensures least <= k {
        if k != x { assert k in ids - {x}; }
      }
    } else {
      assert forall k :: k in ids ==> x <= k;
    }
  }

  /** The identifiers in ascending order, each once. */
  function SortedIds(ids: set<Id>): (r: seq<Id>)
    ensures |r| == |ids|
    ensures forall i :: 0 <= i < |r| ==> r[i] in ids
    ensures forall k :: k in ids ==> k in r
    ensures forall i, j :: 0 <= i < j < |r| ==> r[i] < r[j]
    decreases ids
  {
    if ids == {} then []
    else
      var m := MinId(ids);
      [m] + SortedIds(ids - {m})
  }

  /** Every stored record, in ascending order of identifier (the table's own
      order is not specified; this fixes one). */
  function FindAll(s: Store): (r: seq<Beer>)
    requires Keyed(s)
    ensures |r| == |s|
    ensures forall i :: 0 <= i < |r| ==> r[i].id in s && s[r[i].id] == r[i]
    ensures forall k :: k in s ==> s[k] in r
    ensures forall i, j :: 0 <= i < j < |r| ==> r[i].id < r[j].id
  {
    var ids := SortedIds(s.Keys);
    var r := Rows(s, ids);
    forall k | k in s ensures s[k] in r {
      var i :| 0 <= i < |ids| && ids[i] == k;
      assert r[i] == s[k];
    }
    r
  }

  /** The records stored under the given identifiers, in that order. */
  function Rows(s: Store, ids: seq<Id>): (r: seq<Beer>)
    requires forall i :: 0 <= i < |ids| ==> ids[i] in s
    ensures |r| == |ids|
    ensures forall i :: 0 <= i < |r| ==> r[i] == s[ids[i]]
  {
    if ids == [] then [] else [s[ids[0]]] + Rows(s, ids[1..])
  }
}
