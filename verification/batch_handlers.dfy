/** Handlers for lists of elements: `/nodes?nodes=…`, `/ways?ways=…` and
    `/relations?relations=…`. Each request names current ids and historical
    `(id, version)` pairs; the answer is the current rows followed by the
    historical ones, and the whole request fails with `NotFound` unless there
    is one row per requested item. */
module BatchHandlers {
  import opened Wrappers
  import opened Osm
  import opened Db

  /** Current extraction first, historical second, then the count check. */
  function Combine<E>(current: Result<seq<E>, Error>, historic: Result<seq<E>, Error>, expected: int)
    : (r: Result<seq<E>, Error>)
    ensures current.Failure? ==> r == Failure(current.error)
    ensures current.Success? && historic.Failure? ==> r == Failure(historic.error)
    ensures current.Success? && historic.Success? ==>
      && (r.Success? <==> |current.value| + |historic.value| == expected)
      && (r.Failure? ==> r.error == NotFound)
      && (r.Success? ==> |r.value| == expected
                         && r.value[..|current.value|] == current.value
                         && r.value[|current.value|..] == historic.value)
  {
    var rows :- current;
    var older :- historic;
    if |rows| + |older| != expected then Failure(NotFound)
    else Success(rows + older)
  }

  /** A node as the batch answer shows it: a node that is not visible keeps
      every attribute except its coordinates. */
  function RedactNode(n: Node): (m: Node)
    ensures n.visible ==> m == n
    ensures !n.visible ==> m.lat.None? && m.lon.None?
    ensures m.(lat := n.lat, lon := n.lon) == n
  {
    if n.visible then n else n.(lat := None, lon := None)
  }

  /** Redaction is stable: redacting twice is redacting once. */
  lemma RedactNodeIdempotent(n: Node)
    ensures RedactNode(RedactNode(n)) == RedactNode(n)
    ensures RedactNode(n).visible == n.visible
  {
  }

  /** `/nodes`: as the combination above, with invisible nodes' coordinates removed. */
  function NodesHandler(db: OsmDb, ids: seq<Id>, histIds: seq<VersionKey>): (r: Result<Document, Error>)
    ensures db.extractNodes(ids).Failure? ==> r == Failure(db.extractNodes(ids).error)
    ensures db.extractNodes(ids).Success? && db.extractHistoricalNodes(histIds).Failure? ==>
      r == Failure(db.extractHistoricalNodes(histIds).error)
    ensures db.extractNodes(ids).Success? && db.extractHistoricalNodes(histIds).Success? ==>
      var all := db.extractNodes(ids).value + db.extractHistoricalNodes(histIds).value;
      && (r.Success? <==> |all| == |ids| + |histIds|)
      && (r.Failure? ==> r.error == NotFound)
      && (r.Success? ==>
            && r.value == New().(nodes := r.value.nodes)
            && |r.value.nodes| == |all|
            && forall i :: 0 <= i < |all| ==> r.value.nodes[i] == RedactNode(all[i]))
  {
    var nodes :- Combine(db.extractNodes(ids), db.extractHistoricalNodes(histIds), |ids| + |histIds|);
    Success(New().(nodes := seq(|nodes|, i requires 0 <= i < |nodes| => RedactNode(nodes[i]))))
  }

  /** `/ways`. */
  function WaysHandler(db: OsmDb, ids: seq<Id>, histIds: seq<VersionKey>): (r: Result<Document, Error>)
    ensures db.extractWays(ids).Failure? ==> r == Failure(db.extractWays(ids).error)
    ensures db.extractWays(ids).Success? && db.extractHistoricalWays(histIds).Failure? ==>
      r == Failure(db.extractHistoricalWays(histIds).error)
    ensures db.extractWays(ids).Success? && db.extractHistoricalWays(histIds).Success? ==>
      var all := db.extractWays(ids).value + db.extractHistoricalWays(histIds).value;
      && (r.Success? <==> |all| == |ids| + |histIds|)
      && (r.Failure? ==> r.error == NotFound)
      && (r.Success? ==> r.value == New().(ways := all))
  {
    var ways :- Combine(db.extractWays(ids), db.extractHistoricalWays(histIds), |ids| + |histIds|);
    Success(New().(ways := ways))
  }

  /** `/relations`. */
  function RelationsHandler(db: OsmDb, ids: seq<Id>, histIds: seq<VersionKey>): (r: Result<Document, Error>)
    ensures db.extractRelations(ids).Failure? ==> r == Failure(db.extractRelations(ids).error)
    ensures db.extractRelations(ids).Success? && db.extractHistoricalRelations(histIds).Failure? ==>
      r == Failure(db.extractHistoricalRelations(histIds).error)
    ensures db.extractRelations(ids).Success? && db.extractHistoricalRelations(histIds).Success? ==>
      var all := db.extractRelations(ids).value + db.extractHistoricalRelations(histIds).value;
      && (r.Success? <==> |all| == |ids| + |histIds|)
      && (r.Failure? ==> r.error == NotFound)
      && (r.Success? ==> r.value == New().(relations := all))
  {
    var relations :- Combine(db.extractRelations(ids), db.extractHistoricalRelations(histIds), |ids| + |histIds|);
    Success(New().(relations := relations))
  }

  /** The count check is a completeness check: for current ids without
      repetitions (the current extraction matches `id = ANY(ids)` and so
      answers a repeated id once), and stores whose extractions keep their row
      contracts, the combination succeeds exactly when every requested id and
      every requested `(id, version)` pair exists. Historical pairs may repeat:
      each occurrence of an existing pair is answered by a row of its own. */
  lemma CombineComplete<E>(extract: seq<Id> -> Result<seq<E>, Error>, key: E -> Id, table: set<Id>,
                           extractHistoric: seq<VersionKey> -> Result<seq<E>, Error>, historicKey: E -> VersionKey,
                           historicTable: set<VersionKey>, ids: seq<Id>, histIds: seq<VersionKey>)
    requires ExtractsCurrent(extract, key, table)
    requires ExtractsHistorical(extractHistoric, historicKey, historicTable)
    requires Distinct(ids)
    requires extract(ids).Success? && extractHistoric(histIds).Success?
    ensures Combine(extract(ids), extractHistoric(histIds), |ids| + |histIds|).Success?
        <==> Elems(ids) <= table && Elems(histIds) <= historicTable
  {
    ExtractedCount(extract, key, table, ids);
    HistoricalCount(extractHistoric, historicKey, historicTable, histIds);
  }

  /** A request that repeats a current id always fails with `NotFound`, even
      when everything it names exists, because the current extraction yields
      one row per distinct id. */
  lemma CombineRejectsRepeats<E>(extract: seq<Id> -> Result<seq<E>, Error>, key: E -> Id, table: set<Id>,
                                 extractHistoric: seq<VersionKey> -> Result<seq<E>, Error>,
                                 historicKey: E -> VersionKey, historicTable: set<VersionKey>,
                                 ids: seq<Id>, histIds: seq<VersionKey>)
    requires ExtractsCurrent(extract, key, table)
    requires ExtractsHistorical(extractHistoric, historicKey, historicTable)
    requires !Distinct(ids)
    requires extract(ids).Success? && extractHistoric(histIds).Success?
    ensures Combine(extract(ids), extractHistoric(histIds), |ids| + |histIds|) == Failure(NotFound)
  {
    ExtractedAtMost(extract, key, table, ids);
    HistoricalCount(extractHistoric, historicKey, historicTable, histIds);
    ElemsBound(ids);
  }

  /** Repeated historical pairs pass the count check: when every requested id
      and pair exists, the combination succeeds and its historical part holds
      each pair exactly as often as it was requested. */
  lemma CombineServesRepeatedPairs<E>(extract: seq<Id> -> Result<seq<E>, Error>, key: E -> Id, table: set<Id>,
                                      extractHistoric: seq<VersionKey> -> Result<seq<E>, Error>,
                                      historicKey: E -> VersionKey, historicTable: set<VersionKey>,
                                      ids: seq<Id>, histIds: seq<VersionKey>)
    requires ExtractsCurrent(extract, key, table)
    requires ExtractsHistorical(extractHistoric, historicKey, historicTable)
    requires Distinct(ids) && Elems(ids) <= table && Elems(histIds) <= historicTable
    requires extract(ids).Success? && extractHistoric(histIds).Success?
    ensures Combine(extract(ids), extractHistoric(histIds), |ids| + |histIds|).Success?
    ensures var rows := Combine(extract(ids), extractHistoric(histIds), |ids| + |histIds|).value;
      multiset(KeyList(rows[|ids|..], historicKey)) == multiset(histIds)
  {
    ExtractedCount(extract, key, table, ids);
    HistoricalCount(extractHistoric, historicKey, historicTable, histIds);
  }

  lemma NodesComplete(db: OsmDb, table: set<Id>, historicTable: set<VersionKey>, ids: seq<Id>, histIds: seq<VersionKey>)
    requires ExtractsCurrent(db.extractNodes, NodeId, table)
    requires ExtractsHistorical(db.extractHistoricalNodes, NodeKey, historicTable)
    requires db.extractNodes(ids).Success? && db.extractHistoricalNodes(histIds).Success?
    ensures Distinct(ids) ==>
      (NodesHandler(db, ids, histIds).Success? <==> Elems(ids) <= table && Elems(histIds) <= historicTable)
    ensures !Distinct(ids) ==> NodesHandler(db, ids, histIds) == Failure(NotFound)
  {
    if Distinct(ids) {
      CombineComplete(db.extractNodes, NodeId, table, db.extractHistoricalNodes, NodeKey, historicTable, ids, histIds);
    } else {
      CombineRejectsRepeats(db.extractNodes, NodeId, table, db.extractHistoricalNodes, NodeKey, historicTable, ids, histIds);
    }
  }

  lemma WaysComplete(db: OsmDb, table: set<Id>, historicTable: set<VersionKey>, ids: seq<Id>, histIds: seq<VersionKey>)
    requires ExtractsCurrent(db.extractWays, WayId, table)
    requires ExtractsHistorical(db.extractHistoricalWays, WayKey, historicTable)
    requires db.extractWays(ids).Success? && db.extractHistoricalWays(histIds).Success?
    ensures Distinct(ids) ==>
      (WaysHandler(db, ids, histIds).Success? <==> Elems(ids) <= table && Elems(histIds) <= historicTable)
    ensures !Distinct(ids) ==> WaysHandler(db, ids, histIds) == Failure(NotFound)
  {
    if Distinct(ids) {
      CombineComplete(db.extractWays, WayId, table, db.extractHistoricalWays, WayKey, historicTable, ids, histIds);
    } else {
      CombineRejectsRepeats(db.extractWays, WayId, table, db.extractHistoricalWays, WayKey, historicTable, ids, histIds);
    }
  }

  lemma RelationsComplete(db: OsmDb, table: set<Id>, historicTable: set<VersionKey>, ids: seq<Id>,
                          histIds: seq<VersionKey>)
    requires ExtractsCurrent(db.extractRelations, RelationId, table)
    requires ExtractsHistorical(db.extractHistoricalRelations, RelationKey, historicTable)
    requires db.extractRelations(ids).Success? && db.extractHistoricalRelations(histIds).Success?
    ensures Distinct(ids) ==>
      (RelationsHandler(db, ids, histIds).Success? <==> Elems(ids) <= table && Elems(histIds) <= historicTable)
    ensures !Distinct(ids) ==> RelationsHandler(db, ids, histIds) == Failure(NotFound)
  {
    if Distinct(ids) {
      CombineComplete(db.extractRelations, RelationId, table, db.extractHistoricalRelations, RelationKey,
                      historicTable, ids, histIds);
    } else {
      CombineRejectsRepeats(db.extractRelations, RelationId, table, db.extractHistoricalRelations, RelationKey,
                            historicTable, ids, histIds);
    }
  }

  /** `/nodes?nodes=5v1,5v1` for an existing version 1 of node 5 answers that
      version twice. */
  lemma NodesRepeatedPair(db: OsmDb, table: set<Id>, historicTable: set<VersionKey>, k: VersionKey)
    requires ExtractsCurrent(db.extractNodes, NodeId, table)
    requires ExtractsHistorical(db.extractHistoricalNodes, NodeKey, historicTable)
    requires k in historicTable
    requires db.extractNodes([]).Success? && db.extractHistoricalNodes([k, k]).Success?
    ensures NodesHandler(db, [], [k, k]).Success?
    ensures var nodes := NodesHandler(db, [], [k, k]).value.nodes;
      |nodes| == 2 && NodeKey(nodes[0]) == k && NodeKey(nodes[1]) == k
  {
    assert Elems([k, k]) == {k};
    CombineServesRepeatedPairs(db.extractNodes, NodeId, table, db.extractHistoricalNodes, NodeKey, historicTable,
                               [], [k, k]);
    var rows := db.extractHistoricalNodes([k, k]).value;
    var keys := KeyList(rows, NodeKey);
    ExtractedCount(db.extractNodes, NodeId, table, []);
    assert multiset(keys) == multiset([k, k]);
    assert |keys| == 2;
    assert keys[0] in multiset(keys) && keys[1] in multiset(keys);
  }
}
