/** The database the handlers query, as an abstract collaborator: every prepared
    query is a function-valued field returning either rows or an error. Nothing
    about the SQL is assumed by the handlers; the row contracts below are stated
    assumptions that only the lemmas which need them take as preconditions. */
module Db {
  import opened Wrappers
  import opened Osm

  /** The two domain errors handlers raise, and any other store error, which
      they pass on unchanged. */
  datatype Error = NotFound | Deleted | Infra(message: string)

  /** A historical version reference `[id, version]`. */
  type VersionKey = (Id, int)

  /** The bounding box as parsed by the transport; the handlers only pass it on. */
  datatype BoundingBox = BoundingBox(bounds: seq<real>)

  datatype OsmDb = OsmDb(
    // Existing current ids among the requested one.
    selectNodes: Id -> Result<seq<Id>, Error>,
    selectWays: Id -> Result<seq<Id>, Error>,
    selectRelations: Id -> Result<seq<Id>, Error>,
    selectChangesets: Id -> Result<seq<Id>, Error>,
    // Current visibility flag.
    isNodeVisible: Id -> Result<bool, Error>,
    isWayVisible: Id -> Result<bool, Error>,
    isRelationVisible: Id -> Result<bool, Error>,
    // All (id, version) pairs of an entity's history.
    selectNodesHistory: Id -> Result<seq<VersionKey>, Error>,
    selectWaysHistory: Id -> Result<seq<VersionKey>, Error>,
    selectRelationsHistory: Id -> Result<seq<VersionKey>, Error>,
    // Current rows by id, historical rows by (id, version).
    extractNodes: seq<Id> -> Result<seq<Node>, Error>,
    extractWays: seq<Id> -> Result<seq<Way>, Error>,
    extractRelations: seq<Id> -> Result<seq<Relation>, Error>,
    extractHistoricalNodes: seq<VersionKey> -> Result<seq<Node>, Error>,
    extractHistoricalWays: seq<VersionKey> -> Result<seq<Way>, Error>,
    extractHistoricalRelations: seq<VersionKey> -> Result<seq<Relation>, Error>,
    extractChangesets: (seq<Id>, bool) -> Result<seq<Changeset>, Error>,
    // Derived references.
    selectNodesFromWays: seq<Id> -> Result<seq<Id>, Error>,
    selectNodesFromRelations: seq<Id> -> Result<seq<Id>, Error>,
    selectWaysFromRelations: seq<Id> -> Result<seq<Id>, Error>,
    selectRelationMembersFromRelations: seq<Id> -> Result<seq<Id>, Error>,
    selectWaysFromNodes: seq<Id> -> Result<seq<Id>, Error>,
    selectRelationsFromWays: seq<Id> -> Result<seq<Id>, Error>,
    selectRelationsFromNodes: seq<Id> -> Result<seq<Id>, Error>,
    selectRelationsFromRelations: seq<Id> -> Result<seq<Id>, Error>,
    selectNodesFromBbox: BoundingBox -> Result<seq<Id>, Error>)

  function NodeId(n: Node): Id { n.id }
  function WayId(w: Way): Id { w.id }
  function RelationId(r: Relation): Id { r.id }
  function NodeKey(n: Node): VersionKey { (n.id, n.version) }
  function WayKey(w: Way): VersionKey { (w.id, w.version) }
  function RelationKey(r: Relation): VersionKey { (r.id, r.version) }

  /** The set of elements of a list. */
  function Elems<K>(s: seq<K>): set<K> {
    set x | x in s
  }

  /** The set of keys of a list of rows. */
  function Keys<E, K>(rows: seq<E>, key: E -> K): set<K> {
    set i | 0 <= i < |rows| :: key(rows[i])
  }

  predicate DistinctKeys<E, K(==)>(rows: seq<E>, key: E -> K) {
    forall i, j :: 0 <= i < j < |rows| ==> key(rows[i]) != key(rows[j])
  }

  predicate Distinct<K(==)>(s: seq<K>) {
    forall i, j :: 0 <= i < j < |s| ==> s[i] != s[j]
  }

  /** ASSUMED row contract of a current-row extraction (`WHERE id = ANY($1)
      ORDER BY id`): one row for every requested id present in `table`, none
      for anything else, in strictly ascending id order. */
  ghost predicate ExtractsCurrent<E>(extract: seq<Id> -> Result<seq<E>, Error>, key: E -> Id, table: set<Id>) {
    forall ids :: extract(ids).Success? ==>
      && (forall i, j :: 0 <= i < j < |extract(ids).value| ==>
            key(extract(ids).value[i]) < key(extract(ids).value[j]))
      && Keys(extract(ids).value, key) == Elems(ids) * table
  }

  /** The keys of a list of rows, in row order. */
  function KeyList<E, K>(rows: seq<E>, key: E -> K): (r: seq<K>)
    ensures |r| == |rows| && forall i :: 0 <= i < |rows| ==> r[i] == key(rows[i])
  {
    seq(|rows|, i requires 0 <= i < |rows| => key(rows[i]))
  }

  /** The requested keys that are present in `table`, repetitions and order kept. */
  function InTable<K>(keys: seq<K>, table: set<K>): seq<K>
    decreases |keys|
  {
    if |keys| == 0 then []
    else (if keys[0] in table then [keys[0]] else []) + InTable(keys[1..], table)
  }

  /** ASSUMED row contract of a historical extraction (an inner join of the
      versions table with the unnested wanted pairs, without DISTINCT): one row
      for every requested OCCURRENCE of a pair present in `table`, none for
      anything else. A pair requested twice yields two rows. */
  ghost predicate ExtractsHistorical<E>(extract: seq<VersionKey> -> Result<seq<E>, Error>, key: E -> VersionKey,
                                        table: set<VersionKey>) {
    forall keys :: extract(keys).Success? ==>
      multiset(KeyList(extract(keys).value, key)) == multiset(InTable(keys, table))
  }

  /** ASSUMED row contract of a history selection: versions of the requested
      element (the query keeps only unredacted ones), each once, all of them
      present in `table`. */
  ghost predicate SelectsHistory(select: Id -> Result<seq<VersionKey>, Error>, table: set<VersionKey>) {
    forall id :: select(id).Success? ==>
      && Distinct(select(id).value)
      && forall i :: 0 <= i < |select(id).value| ==> select(id).value[i].0 == id && select(id).value[i] in table
  }

  /** ASSUMED: changesets carry a discussion only when one was asked for. */
  ghost predicate DiscussionOnlyOnRequest(extract: (seq<Id>, bool) -> Result<seq<Changeset>, Error>) {
    forall ids :: extract(ids, false).Success? ==>
      forall i :: 0 <= i < |extract(ids, false).value| ==> extract(ids, false).value[i].discussion.None?
  }

  /** Rows with pairwise different keys have as many keys as rows. */
  lemma {:induction false} DistinctKeysCount<E, K>(rows: seq<E>, key: E -> K)
    requires DistinctKeys(rows, key)
    ensures |Keys(rows, key)| == |rows|
  {
    if |rows| > 0 {
      var last := |rows| - 1;
      var front := rows[..last];
      assert DistinctKeys(front, key);
      DistinctKeysCount(front, key);
      assert Keys(rows, key) == Keys(front, key) + {key(rows[last])} by {
        forall k | k in Keys(rows, key) ensures k in Keys(front, key) + {key(rows[last])} {
          var i :| 0 <= i < |rows| && key(rows[i]) == k;
          if i < last { assert front[i] == rows[i]; }
        }
        forall k | k in Keys(front, key) ensures k in Keys(rows, key) {
          var i :| 0 <= i < |front| && key(front[i]) == k;
          assert rows[i] == front[i];
        }
      }
      assert key(rows[last]) !in Keys(front, key) by {
        forall i | 0 <= i < |front| ensures key(front[i]) != key(rows[last]) {
          assert front[i] == rows[i];
        }
      }
    }
  }

  /** A list without repetitions has as many elements as its length. */
  lemma DistinctCount<K>(s: seq<K>)
    requires Distinct(s)
    ensures |Elems(s)| == |s|
  {
    var id := (x: K) => x;
    assert DistinctKeys(s, id);
    DistinctKeysCount(s, id);
    assert Keys(s, id) == Elems(s);
  }

  /** Under the row contract, the rows of an extraction over distinct ids number
      exactly the requested ids present, and never more than requested. */
  lemma ExtractedCount<E>(extract: seq<Id> -> Result<seq<E>, Error>, key: E -> Id, table: set<Id>, ids: seq<Id>)
    requires ExtractsCurrent(extract, key, table)
    requires Distinct(ids)
    requires extract(ids).Success?
    ensures |extract(ids).value| == |Elems(ids) * table| <= |ids|
    ensures |extract(ids).value| == |ids| <==> Elems(ids) <= table
  {
    var rows := extract(ids).value;
    assert DistinctKeys(rows, key);
    DistinctKeysCount(rows, key);
    DistinctCount(ids);
    SubsetCount(Elems(ids) * table, Elems(ids));
  }

  /** A list has at most as many distinct elements as its length, and fewer
      when some element repeats. */
  lemma {:induction false} ElemsBound<K>(s: seq<K>)
    ensures |Elems(s)| <= |s|
    ensures !Distinct(s) ==> |Elems(s)| < |s|
  {
    if |s| > 0 {
      var tail := s[1..];
      ElemsBound(tail);
      assert Elems(s) == {s[0]} + Elems(tail);
      if s[0] in tail {
        assert Elems(s) == Elems(tail);
      } else if !Distinct(s) {
        var i, j :| 0 <= i < j < |s| && s[i] == s[j];
        assert tail[j - 1] == s[j];
        assert tail[i - 1] == s[i];
      }
    }
  }

  /** Under the row contract, an extraction never yields more rows than there
      are different requested ids. */
  lemma ExtractedAtMost<E>(extract: seq<Id> -> Result<seq<E>, Error>, key: E -> Id, table: set<Id>, ids: seq<Id>)
    requires ExtractsCurrent(extract, key, table)
    requires extract(ids).Success?
    ensures |extract(ids).value| <= |Elems(ids)| <= |ids|
  {
    var rows := extract(ids).value;
    assert DistinctKeys(rows, key);
    DistinctKeysCount(rows, key);
    SubsetCount(Elems(ids) * table, Elems(ids));
    ElemsBound(ids);
  }

  /** Filtering by the table keeps every present occurrence and drops the rest. */
  lemma {:induction false} InTableFacts<K>(keys: seq<K>, table: set<K>)
    ensures |InTable(keys, table)| <= |keys|
    ensures Elems(InTable(keys, table)) == Elems(keys) * table
    ensures Elems(keys) <= table ==> InTable(keys, table) == keys
    ensures |InTable(keys, table)| == |keys| ==> Elems(keys) <= table
    decreases |keys|
  {
    if |keys| > 0 {
      var tail := keys[1..];
      InTableFacts(tail, table);
      assert Elems(keys) == {keys[0]} + Elems(tail);
      var head := if keys[0] in table then [keys[0]] else [];
      var rest := InTable(tail, table);
      assert InTable(keys, table) == head + rest;
      assert Elems(head + rest) == Elems(head) + Elems(rest);
      if Elems(keys) <= table {
        assert keys == [keys[0]] + tail;
      }
    }
  }

  /** Under the row contract, a historical extraction yields exactly as many
      rows as there are requested occurrences of existing pairs: as many as
      requested exactly when every requested pair exists, and then each pair
      as often as it was requested. */
  lemma HistoricalCount<E>(extract: seq<VersionKey> -> Result<seq<E>, Error>, key: E -> VersionKey,
                           table: set<VersionKey>, keys: seq<VersionKey>)
    requires ExtractsHistorical(extract, key, table)
    requires extract(keys).Success?
    ensures |extract(keys).value| == |InTable(keys, table)| <= |keys|
    ensures |extract(keys).value| == |keys| <==> Elems(keys) <= table
    ensures Keys(extract(keys).value, key) == Elems(keys) * table
    ensures Elems(keys) <= table ==> multiset(KeyList(extract(keys).value, key)) == multiset(keys)
  {
    var rows := extract(keys).value;
    var ks := KeyList(rows, key);
    InTableFacts(keys, table);
    assert |multiset(ks)| == |ks|;
    assert |multiset(InTable(keys, table))| == |InTable(keys, table)|;
    forall k ensures k in Keys(rows, key) <==> k in Elems(InTable(keys, table)) {
      assert k in Keys(rows, key) <==> k in multiset(ks) by {
        if k in Keys(rows, key) {
          var i :| 0 <= i < |rows| && key(rows[i]) == k;
          assert ks[i] == k;
        }
      }
    }
  }

  /** A subset is no larger, and is the whole set exactly when it is as large. */
  lemma SubsetCount<K>(a: set<K>, b: set<K>)
    requires a <= b
    ensures |a| <= |b|
    ensures |a| == |b| <==> a == b
  {
    assert b == a + (b - a);
    assert |b| == |a| + |b - a|;
    if |a| == |b| {
      assert |b - a| == 0;
      assert b - a == {};
    }
  }
}
