/** Handlers for past versions: `/node/:id/:version` (and for ways and
    relations), answering one historical version, and `/node/:id/history` (and
    for ways and relations), answering every unredacted version. Neither looks at
    visibility: deleted versions are part of history. */
module HistoryHandlers {
  import opened Wrappers
  import opened Osm
  import opened Db

  /** The rows of one `(id, version)` pair; none at all is `NotFound`. */
  function VersionRows<E>(extract: seq<VersionKey> -> Result<seq<E>, Error>, id: Id, version: int)
    : (r: Result<seq<E>, Error>)
    ensures extract([(id, version)]).Failure? ==> r == Failure(extract([(id, version)]).error)
    ensures extract([(id, version)]) == Success([]) ==> r == Failure(NotFound)
    ensures r.Success? ==> |r.value| > 0 && extract([(id, version)]) == Success(r.value)
    ensures extract([(id, version)]).Success? && |extract([(id, version)]).value| > 0 ==> r.Success?
  {
    var rows :- extract([(id, version)]);
    if |rows| == 0 then Failure(NotFound) else Success(rows)
  }

  /** With the row contract, a version request succeeds exactly when that
      version exists, and then answers that version alone. */
  lemma VersionRowsExact<E>(extract: seq<VersionKey> -> Result<seq<E>, Error>, key: E -> VersionKey,
                            table: set<VersionKey>, id: Id, version: int)
    requires ExtractsHistorical(extract, key, table)
    requires extract([(id, version)]).Success?
    ensures VersionRows(extract, id, version).Success? <==> (id, version) in table
    ensures VersionRows(extract, id, version).Success? ==>
      |VersionRows(extract, id, version).value| == 1 && key(VersionRows(extract, id, version).value[0]) == (id, version)
  {
    var k := (id, version);
    var rows := extract([k]).value;
    HistoricalCount(extract, key, table, [k]);
    assert InTable([k], table) == (if k in table then [k] else []) + InTable([], table);
    assert Elems([k]) == {k};
    if |rows| > 0 {
      assert key(rows[0]) in Keys(rows, key);
    }
  }

  /** The versions a history selection names, then their rows; no version is
      `NotFound`. */
  function HistoryRows<E>(select: Id -> Result<seq<VersionKey>, Error>,
                          extract: seq<VersionKey> -> Result<seq<E>, Error>, id: Id): (r: Result<seq<E>, Error>)
    ensures select(id).Failure? ==> r == Failure(select(id).error)
    ensures select(id) == Success([]) ==> r == Failure(NotFound)
    ensures select(id).Success? && |select(id).value| > 0 ==>
      && (extract(select(id).value).Failure? ==> r == Failure(extract(select(id).value).error))
      && (extract(select(id).value).Success? ==> r == Success(extract(select(id).value).value))
    ensures r.Success? ==> select(id).Success? && |select(id).value| > 0
  {
    var keys :- select(id);
    if |keys| == 0 then Failure(NotFound) else extract(keys)
  }

  /** With the row contracts, a history answer has one row per selected
      (unredacted) version, each once, and every row is a version of that
      element. */
  lemma HistoryRowsExact<E>(select: Id -> Result<seq<VersionKey>, Error>,
                            extract: seq<VersionKey> -> Result<seq<E>, Error>, key: E -> VersionKey,
                            table: set<VersionKey>, id: Id)
    requires SelectsHistory(select, table)
    requires ExtractsHistorical(extract, key, table)
    ensures HistoryRows(select, extract, id).Success? ==>
      var keys := select(id).value;
      var rows := HistoryRows(select, extract, id).value;
      && |rows| == |keys|
      && Keys(rows, key) == Elems(keys)
      && forall i :: 0 <= i < |rows| ==> key(rows[i]).0 == id
  {
    if HistoryRows(select, extract, id).Success? {
      var keys := select(id).value;
      var rows := extract(keys).value;
      assert Elems(keys) <= table;
      HistoricalCount(extract, key, table, keys);
      forall i | 0 <= i < |rows| ensures key(rows[i]).0 == id {
        assert key(rows[i]) in Keys(rows, key);
      }
    }
  }

  function NodeVersionHandler(db: OsmDb, id: Id, version: int): (r: Result<Document, Error>)
    ensures VersionRows(db.extractHistoricalNodes, id, version).Failure? ==>
      r == Failure(VersionRows(db.extractHistoricalNodes, id, version).error)
    ensures r.Success? ==> r.value == New().(nodes := VersionRows(db.extractHistoricalNodes, id, version).value)
    ensures r.Success? <==> VersionRows(db.extractHistoricalNodes, id, version).Success?
  {
    var nodes :- VersionRows(db.extractHistoricalNodes, id, version);
    Success(New().(nodes := nodes))
  }

  function WayVersionHandler(db: OsmDb, id: Id, version: int): (r: Result<Document, Error>)
    ensures VersionRows(db.extractHistoricalWays, id, version).Failure? ==>
      r == Failure(VersionRows(db.extractHistoricalWays, id, version).error)
    ensures r.Success? ==> r.value == New().(ways := VersionRows(db.extractHistoricalWays, id, version).value)
    ensures r.Success? <==> VersionRows(db.extractHistoricalWays, id, version).Success?
  {
    var ways :- VersionRows(db.extractHistoricalWays, id, version);
    Success(New().(ways := ways))
  }

  function RelationVersionHandler(db: OsmDb, id: Id, version: int): (r: Result<Document, Error>)
    ensures VersionRows(db.extractHistoricalRelations, id, version).Failure? ==>
      r == Failure(VersionRows(db.extractHistoricalRelations, id, version).error)
    ensures r.Success? ==>
      r.value == New().(relations := VersionRows(db.extractHistoricalRelations, id, version).value)
    ensures r.Success? <==> VersionRows(db.extractHistoricalRelations, id, version).Success?
  {
    var relations :- VersionRows(db.extractHistoricalRelations, id, version);
    Success(New().(relations := relations))
  }

  function NodeHistoryHandler(db: OsmDb, id: Id): (r: Result<Document, Error>)
    ensures HistoryRows(db.selectNodesHistory, db.extractHistoricalNodes, id).Failure? ==>
      r == Failure(HistoryRows(db.selectNodesHistory, db.extractHistoricalNodes, id).error)
    ensures r.Success? ==>
      r.value == New().(nodes := HistoryRows(db.selectNodesHistory, db.extractHistoricalNodes, id).value)
    ensures r.Success? <==> HistoryRows(db.selectNodesHistory, db.extractHistoricalNodes, id).Success?
  {
    var nodes :- HistoryRows(db.selectNodesHistory, db.extractHistoricalNodes, id);
    Success(New().(nodes := nodes))
  }

  function WayHistoryHandler(db: OsmDb, id: Id): (r: Result<Document, Error>)
    ensures HistoryRows(db.selectWaysHistory, db.extractHistoricalWays, id).Failure? ==>
      r == Failure(HistoryRows(db.selectWaysHistory, db.extractHistoricalWays, id).error)
    ensures r.Success? ==>
      r.value == New().(ways := HistoryRows(db.selectWaysHistory, db.extractHistoricalWays, id).value)
    ensures r.Success? <==> HistoryRows(db.selectWaysHistory, db.extractHistoricalWays, id).Success?
  {
    var ways :- HistoryRows(db.selectWaysHistory, db.extractHistoricalWays, id);
    Success(New().(ways := ways))
  }

  function RelationHistoryHandler(db: OsmDb, id: Id): (r: Result<Document, Error>)
    ensures HistoryRows(db.selectRelationsHistory, db.extractHistoricalRelations, id).Failure? ==>
      r == Failure(HistoryRows(db.selectRelationsHistory, db.extractHistoricalRelations, id).error)
    ensures r.Success? ==>
      r.value == New().(relations := HistoryRows(db.selectRelationsHistory, db.extractHistoricalRelations, id).value)
    ensures r.Success? <==> HistoryRows(db.selectRelationsHistory, db.extractHistoricalRelations, id).Success?
  {
    var relations :- HistoryRows(db.selectRelationsHistory, db.extractHistoricalRelations, id);
    Success(New().(relations := relations))
  }

  /** A node's history answer lists every selected (unredacted) version of
      that node once, whatever the visibility of the node. */
  lemma NodeHistoryExact(db: OsmDb, table: set<VersionKey>, id: Id)
    requires SelectsHistory(db.selectNodesHistory, table)
    requires ExtractsHistorical(db.extractHistoricalNodes, NodeKey, table)
    ensures NodeHistoryHandler(db, id).Success? ==>
      var nodes := NodeHistoryHandler(db, id).value.nodes;
      && |nodes| == |db.selectNodesHistory(id).value|
      && Keys(nodes, NodeKey) == Elems(db.selectNodesHistory(id).value)
      && forall i :: 0 <= i < |nodes| ==> nodes[i].id == id
  {
    HistoryRowsExact(db.selectNodesHistory, db.extractHistoricalNodes, NodeKey, table, id);
  }

  /** A node version request answers exactly that version, or `NotFound`. */
  lemma NodeVersionExact(db: OsmDb, table: set<VersionKey>, id: Id, version: int)
    requires ExtractsHistorical(db.extractHistoricalNodes, NodeKey, table)
    requires db.extractHistoricalNodes([(id, version)]).Success?
    ensures NodeVersionHandler(db, id, version).Success? <==> (id, version) in table
    ensures NodeVersionHandler(db, id, version).Failure? ==> NodeVersionHandler(db, id, version).error == NotFound
    ensures NodeVersionHandler(db, id, version).Success? ==>
      var nodes := NodeVersionHandler(db, id, version).value.nodes;
      |nodes| == 1 && nodes[0].id == id && nodes[0].version == version
  {
    VersionRowsExact(db.extractHistoricalNodes, NodeKey, table, id, version);
  }
  lemma WayHistoryExact(db: OsmDb, table: set<VersionKey>, id: Id)
    requires SelectsHistory(db.selectWaysHistory, table)
    requires ExtractsHistorical(db.extractHistoricalWays, WayKey, table)
    ensures WayHistoryHandler(db, id).Success? ==>
      var ways := WayHistoryHandler(db, id).value.ways;
      && |ways| == |db.selectWaysHistory(id).value|
      && Keys(ways, WayKey) == Elems(db.selectWaysHistory(id).value)
      && forall i :: 0 <= i < |ways| ==> ways[i].id == id
  {
    HistoryRowsExact(db.selectWaysHistory, db.extractHistoricalWays, WayKey, table, id);
  }

  lemma RelationHistoryExact(db: OsmDb, table: set<VersionKey>, id: Id)
    requires SelectsHistory(db.selectRelationsHistory, table)
    requires ExtractsHistorical(db.extractHistoricalRelations, RelationKey, table)
    ensures RelationHistoryHandler(db, id).Success? ==>
      var relations := RelationHistoryHandler(db, id).value.relations;
      && |relations| == |db.selectRelationsHistory(id).value|
      && Keys(relations, RelationKey) == Elems(db.selectRelationsHistory(id).value)
      && forall i :: 0 <= i < |relations| ==> relations[i].id == id
  {
    HistoryRowsExact(db.selectRelationsHistory, db.extractHistoricalRelations, RelationKey, table, id);
  }

  lemma WayVersionExact(db: OsmDb, table: set<VersionKey>, id: Id, version: int)
    requires ExtractsHistorical(db.extractHistoricalWays, WayKey, table)
    requires db.extractHistoricalWays([(id, version)]).Success?
    ensures WayVersionHandler(db, id, version).Success? <==> (id, version) in table
    ensures WayVersionHandler(db, id, version).Failure? ==> WayVersionHandler(db, id, version).error == NotFound
    ensures WayVersionHandler(db, id, version).Success? ==>
      var ways := WayVersionHandler(db, id, version).value.ways;
      |ways| == 1 && ways[0].id == id && ways[0].version == version
  {
    VersionRowsExact(db.extractHistoricalWays, WayKey, table, id, version);
  }

  lemma RelationVersionExact(db: OsmDb, table: set<VersionKey>, id: Id, version: int)
    requires ExtractsHistorical(db.extractHistoricalRelations, RelationKey, table)
    requires db.extractHistoricalRelations([(id, version)]).Success?
    ensures RelationVersionHandler(db, id, version).Success? <==> (id, version) in table
    ensures RelationVersionHandler(db, id, version).Failure? ==>
      RelationVersionHandler(db, id, version).error == NotFound
    ensures RelationVersionHandler(db, id, version).Success? ==>
      var relations := RelationVersionHandler(db, id, version).value.relations;
      |relations| == 1 && relations[0].id == id && relations[0].version == version
  {
    VersionRowsExact(db.extractHistoricalRelations, RelationKey, table, id, version);
  }
}
