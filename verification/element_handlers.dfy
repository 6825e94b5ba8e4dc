/** Handlers answering for one element by id: `/node/:id`, `/way/:id`,
    `/relation/:id`, `/changeset/:id` and `/node/:id/ways`. */
module ElementHandlers {
  import opened Wrappers
  import opened Osm
  import opened Db
  import opened Resolve

  /** `/node/:id`: gate on existence and visibility, then extract the node. */
  function NodeHandler(db: OsmDb, id: Id): (r: Result<Document, Error>)
    ensures GateRespected(db.selectNodes, db.isNodeVisible, id, r)
    ensures Admitted(db.selectNodes, db.isNodeVisible, id) ==>
      var rows := db.extractNodes(db.selectNodes(id).value);
      && (rows.Failure? ==> r == Failure(rows.error))
      && (rows.Success? ==> r == Success(New().(nodes := rows.value)))
  {
    var ids :- ResolveVisible(db.selectNodes, db.isNodeVisible, id);
    var nodes :- db.extractNodes(ids);
    Success(New().(nodes := nodes))
  }

  /** `/way/:id`: gate on existence and visibility, then extract the way. */
  function WayHandler(db: OsmDb, id: Id): (r: Result<Document, Error>)
    ensures GateRespected(db.selectWays, db.isWayVisible, id, r)
    ensures Admitted(db.selectWays, db.isWayVisible, id) ==>
      var rows := db.extractWays(db.selectWays(id).value);
      && (rows.Failure? ==> r == Failure(rows.error))
      && (rows.Success? ==> r == Success(New().(ways := rows.value)))
  {
    var ids :- ResolveVisible(db.selectWays, db.isWayVisible, id);
    var ways :- db.extractWays(ids);
    Success(New().(ways := ways))
  }

  /** `/relation/:id`: gate on existence and visibility, then extract the relation. */
  function RelationHandler(db: OsmDb, id: Id): (r: Result<Document, Error>)
    ensures GateRespected(db.selectRelations, db.isRelationVisible, id, r)
    ensures Admitted(db.selectRelations, db.isRelationVisible, id) ==>
      var rows := db.extractRelations(db.selectRelations(id).value);
      && (rows.Failure? ==> r == Failure(rows.error))
      && (rows.Success? ==> r == Success(New().(relations := rows.value)))
  {
    var ids :- ResolveVisible(db.selectRelations, db.isRelationVisible, id);
    var relations :- db.extractRelations(ids);
    Success(New().(relations := relations))
  }

  /** Under the row contract of extraction, whatever a gated handler answers
      was selected for the requested id and reported visible. */
  lemma GatedRowsVisible<E>(select: Id -> Result<seq<Id>, Error>, isVisible: Id -> Result<bool, Error>,
                            extract: seq<Id> -> Result<seq<E>, Error>, key: E -> Id, table: set<Id>, id: Id)
    requires ExtractsCurrent(extract, key, table)
    ensures ResolveVisible(select, isVisible, id).Success? && extract(ResolveVisible(select, isVisible, id).value).Success? ==>
      var rows := extract(select(id).value).value;
      forall i :: 0 <= i < |rows| ==> key(rows[i]) in select(id).value && isVisible(key(rows[i])) == Success(true)
  {
    if ResolveVisible(select, isVisible, id).Success? && extract(ResolveVisible(select, isVisible, id).value).Success? {
      var ids := select(id).value;
      var rows := extract(ids).value;
      forall i | 0 <= i < |rows| ensures key(rows[i]) in ids && isVisible(key(rows[i])) == Success(true) {
        assert key(rows[i]) in Keys(rows, key);
        var k :| 0 <= k < |ids| && ids[k] == key(rows[i]);
      }
    }
  }

  /** A node answer holds only nodes selected for the id and reported visible. */
  lemma NodeHandlerOnlyVisible(db: OsmDb, id: Id, table: set<Id>)
    requires ExtractsCurrent(db.extractNodes, NodeId, table)
    ensures NodeHandler(db, id).Success? ==>
      var nodes := NodeHandler(db, id).value.nodes;
      forall i :: 0 <= i < |nodes| ==> nodes[i].id in db.selectNodes(id).value && db.isNodeVisible(nodes[i].id) == Success(true)
  {
    GatedRowsVisible(db.selectNodes, db.isNodeVisible, db.extractNodes, NodeId, table, id);
  }

  lemma WayHandlerOnlyVisible(db: OsmDb, id: Id, table: set<Id>)
    requires ExtractsCurrent(db.extractWays, WayId, table)
    ensures WayHandler(db, id).Success? ==>
      var ways := WayHandler(db, id).value.ways;
      forall i :: 0 <= i < |ways| ==> ways[i].id in db.selectWays(id).value && db.isWayVisible(ways[i].id) == Success(true)
  {
    GatedRowsVisible(db.selectWays, db.isWayVisible, db.extractWays, WayId, table, id);
  }

  lemma RelationHandlerOnlyVisible(db: OsmDb, id: Id, table: set<Id>)
    requires ExtractsCurrent(db.extractRelations, RelationId, table)
    ensures RelationHandler(db, id).Success? ==>
      var relations := RelationHandler(db, id).value.relations;
      forall i :: 0 <= i < |relations| ==>
        relations[i].id in db.selectRelations(id).value && db.isRelationVisible(relations[i].id) == Success(true)
  {
    GatedRowsVisible(db.selectRelations, db.isRelationVisible, db.extractRelations, RelationId, table, id);
  }

  /** `/changeset/:id`: existence only (changesets have no visibility), then
      extraction with the discussion flag passed through. */
  function ChangesetHandler(db: OsmDb, id: Id, includeDiscussion: bool): (r: Result<Document, Error>)
    ensures db.selectChangesets(id).Failure? ==> r == Failure(db.selectChangesets(id).error)
    ensures db.selectChangesets(id) == Success([]) ==> r == Failure(NotFound)
    ensures r.Success? ==>
      && db.selectChangesets(id).Success? && |db.selectChangesets(id).value| > 0
      && db.extractChangesets(db.selectChangesets(id).value, includeDiscussion) == Success(r.value.changesets)
      && r.value == New().(changesets := r.value.changesets)
    ensures db.selectChangesets(id).Success? && |db.selectChangesets(id).value| > 0 ==>
      var rows := db.extractChangesets(db.selectChangesets(id).value, includeDiscussion);
      && (rows.Failure? ==> r == Failure(rows.error))
      && (rows.Success? ==> r.Success?)
  {
    var ids :- db.selectChangesets(id);
    if |ids| == 0 then Failure(NotFound)
    else
      var changesets :- db.extractChangesets(ids, includeDiscussion);
      Success(New().(changesets := changesets))
  }

  /** Without the flag, no returned changeset carries a discussion, provided
      the extraction drops discussions when not asked for them. */
  lemma ChangesetWithoutDiscussion(db: OsmDb, id: Id)
    requires DiscussionOnlyOnRequest(db.extractChangesets)
    ensures var r := ChangesetHandler(db, id, false);
      r.Success? ==> forall i :: 0 <= i < |r.value.changesets| ==> r.value.changesets[i].discussion.None?
  {
  }

  /** What `/node/:id/ways` does before extraction, shared by the as-written and
      corrected handlers: the node must exist, some way must reference it, and
      every referencing way must be visible. Yields the node ids and the way ids. */
  function NodeWaysGate(db: OsmDb, id: Id): (r: Result<(seq<Id>, seq<Id>), Error>)
    ensures db.selectNodes(id).Failure? ==> r == Failure(db.selectNodes(id).error)
    ensures db.selectNodes(id) == Success([]) ==> r == Failure(NotFound)
    ensures db.selectNodes(id).Success? && |db.selectNodes(id).value| > 0 ==>
      var ways := db.selectWaysFromNodes(db.selectNodes(id).value);
      && (ways.Failure? ==> r == Failure(ways.error))
      && (ways == Success([]) ==> r == Failure(NotFound))
      && (forall k :: ways.Success? && FirstBlockedAt(db.isWayVisible, ways.value, k) ==>
            r == Failure(Blocker(db.isWayVisible(ways.value[k]))))
      && (ways.Success? && |ways.value| > 0 && AllVisible(db.isWayVisible, ways.value) ==>
            r == Success((db.selectNodes(id).value, ways.value)))
    ensures r.Success? ==> db.selectNodes(id).Success? && |db.selectNodes(id).value| > 0
  {
    var ids :- db.selectNodes(id);
    if |ids| == 0 then Failure(NotFound)
    else
      var wayIds :- db.selectWaysFromNodes(ids);
      if |wayIds| == 0 then Failure(NotFound)
      else
        var _ :- CheckVisible(db.isWayVisible, wayIds);
        Success((ids, wayIds))
  }

  /** `/node/:id/ways` AS WRITTEN: after finding the referencing ways it
      extracts ways using the NODE ids. */
  function NodeWaysHandler(db: OsmDb, id: Id): (r: Result<Document, Error>)
    ensures NodeWaysGate(db, id).Failure? ==> r == Failure(NodeWaysGate(db, id).error)
    ensures NodeWaysGate(db, id).Success? ==>
      var rows := db.extractWays(db.selectNodes(id).value);
      && (rows.Failure? ==> r == Failure(rows.error))
      && (rows.Success? ==> r == Success(New().(ways := rows.value)))
  {
    var (ids, wayIds) :- NodeWaysGate(db, id);
    var ways :- db.extractWays(ids);
    Success(New().(ways := ways))
  }

  /** `/node/:id/ways` as evidently intended: extracts the referencing ways. */
  function NodeWaysHandlerCorrected(db: OsmDb, id: Id): (r: Result<Document, Error>)
    ensures NodeWaysGate(db, id).Failure? ==> r == Failure(NodeWaysGate(db, id).error)
    ensures NodeWaysGate(db, id).Success? ==>
      var rows := db.extractWays(NodeWaysGate(db, id).value.1);
      && (rows.Failure? ==> r == Failure(rows.error))
      && (rows.Success? ==> r == Success(New().(ways := rows.value)))
  {
    var (ids, wayIds) :- NodeWaysGate(db, id);
    var ways :- db.extractWays(wayIds);
    Success(New().(ways := ways))
  }

  /** Under the row contract of way extraction, the corrected handler returns
      exactly the current ways that reference the node, once each. */
  lemma NodeWaysCorrectedListsReferencingWays(db: OsmDb, id: Id, wayTable: set<Id>)
    requires ExtractsCurrent(db.extractWays, WayId, wayTable)
    ensures var r := NodeWaysHandlerCorrected(db, id);
      r.Success? ==>
        && Keys(r.value.ways, WayId) == Elems(db.selectWaysFromNodes(db.selectNodes(id).value).value) * wayTable
        && DistinctKeys(r.value.ways, WayId)
  {
  }

  /** A store with one node (1) referenced by one visible way (7), whose
      extraction returns exactly the rows of the ids asked for. */
  function OneNodeOneWay(): OsmDb {
    var way7 := Way(7, true, 1, None, None, 1, 0, [1], []);
    OsmDb(
      (id: Id) => Success(if id == 1 then [1] else []),
      (id: Id) => Success(if id == 7 then [7] else []),
      (id: Id) => Success([]),
      (id: Id) => Success([]),
      (id: Id) => Success(true),
      (id: Id) => Success(true),
      (id: Id) => Success(true),
      (id: Id) => Success([]),
      (id: Id) => Success([]),
      (id: Id) => Success([]),
      (ids: seq<Id>) => Success([]),
      (ids: seq<Id>) => Success(if 7 in ids then [way7] else []),
      (ids: seq<Id>) => Success([]),
      (keys: seq<VersionKey>) => Success([]),
      (keys: seq<VersionKey>) => Success([]),
      (keys: seq<VersionKey>) => Success([]),
      (ids: seq<Id>, flag: bool) => Success([]),
      (ids: seq<Id>) => Success(if 7 in ids then [1] else []),
      (ids: seq<Id>) => Success([]),
      (ids: seq<Id>) => Success([]),
      (ids: seq<Id>) => Success([]),
      (ids: seq<Id>) => Success(if 1 in ids then [7] else []),
      (ids: seq<Id>) => Success([]),
      (ids: seq<Id>) => Success([]),
      (ids: seq<Id>) => Success([]),
      (b: BoundingBox) => Success([]))
  }

  /** The discrepancy: node 1 lies on way 7, yet the as-written handler answers
      with no ways at all, while the corrected one answers with way 7. */
  lemma NodeWaysHandlerDropsReferencingWay()
    ensures NodeWaysHandler(OneNodeOneWay(), 1) == Success(New())
    ensures NodeWaysHandlerCorrected(OneNodeOneWay(), 1)
      == Success(New().(ways := [Way(7, true, 1, None, None, 1, 0, [1], [])]))
  {
    var db := OneNodeOneWay();
    assert db.selectNodes(1) == Success([1]);
    assert db.selectWaysFromNodes([1]) == Success([7]);
    assert CheckVisible(db.isWayVisible, [7]) == Success(());
    assert NodeWaysGate(db, 1) == Success(([1], [7]));
    assert db.extractWays([1]) == Success([]);
    assert db.extractWays([7]) == Success([Way(7, true, 1, None, None, 1, 0, [1], [])]);
  }
}
