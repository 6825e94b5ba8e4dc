/** Handlers that answer with an element together with what it references:
    `/way/:id/full`, `/relation/:id/full` and `/map?bbox=…`. Each first collects
    id lists through reference queries, then extracts nodes, ways and relations
    for them. The id lists may repeat ids; the extractions answer each id once. */
module ClosureHandlers {
  import opened Wrappers
  import opened Osm
  import opened Db
  import opened Resolve

  /** The map request is refused when the bounding box holds more nodes than this. */
  const MaxNodes: nat := 50000

  /** The ids a response is built from. */
  datatype Wanted = Wanted(nodeIds: seq<Id>, wayIds: seq<Id>, relationIds: seq<Id>)

  /** Extract nodes, then ways, then relations; the first failure wins. */
  function ExtractAll(db: OsmDb, w: Wanted): (r: Result<Document, Error>)
    ensures db.extractNodes(w.nodeIds).Failure? ==> r == Failure(db.extractNodes(w.nodeIds).error)
    ensures db.extractNodes(w.nodeIds).Success? && db.extractWays(w.wayIds).Failure? ==>
      r == Failure(db.extractWays(w.wayIds).error)
    ensures (db.extractNodes(w.nodeIds).Success? && db.extractWays(w.wayIds).Success? &&
             db.extractRelations(w.relationIds).Failure?) ==> r == Failure(db.extractRelations(w.relationIds).error)
    ensures r.Success? <==>
      db.extractNodes(w.nodeIds).Success? && db.extractWays(w.wayIds).Success? && db.extractRelations(w.relationIds).Success?
    ensures r.Success? ==> r.value == New().(nodes := db.extractNodes(w.nodeIds).value,
                                              ways := db.extractWays(w.wayIds).value,
                                              relations := db.extractRelations(w.relationIds).value)
  {
    var nodes :- db.extractNodes(w.nodeIds);
    var ways :- db.extractWays(w.wayIds);
    var relations :- db.extractRelations(w.relationIds);
    Success(New().(nodes := nodes, ways := ways, relations := relations))
  }

  /** The rows of one kind a response holds: each present requested id once,
      in ascending id order. */
  predicate ListsOnce<E>(rows: seq<E>, key: E -> Id, ids: seq<Id>, table: set<Id>) {
    && (forall i, j :: 0 <= i < j < |rows| ==> key(rows[i]) < key(rows[j]))
    && Keys(rows, key) == Elems(ids) * table
  }

  /** Whatever repetition the collected id lists have, a response holds each
      existing referenced element exactly once, provided the extractions keep
      their row contracts. */
  lemma ExtractAllListsOnce(db: OsmDb, w: Wanted, nodeTable: set<Id>, wayTable: set<Id>, relationTable: set<Id>)
    requires ExtractsCurrent(db.extractNodes, NodeId, nodeTable)
    requires ExtractsCurrent(db.extractWays, WayId, wayTable)
    requires ExtractsCurrent(db.extractRelations, RelationId, relationTable)
    ensures ExtractAll(db, w).Success? ==>
      var d := ExtractAll(db, w).value;
      && ListsOnce(d.nodes, NodeId, w.nodeIds, nodeTable)
      && ListsOnce(d.ways, WayId, w.wayIds, wayTable)
      && ListsOnce(d.relations, RelationId, w.relationIds, relationTable)
  {
  }

  /** `/way/:id/full`: the gate on the way, then the nodes of the way, then the
      nodes and the way itself. No relations are extracted. */
  function WayFullHandler(db: OsmDb, id: Id): (r: Result<Document, Error>)
    ensures GateRespected(db.selectWays, db.isWayVisible, id, r)
    ensures Admitted(db.selectWays, db.isWayVisible, id) ==>
      var ids := db.selectWays(id).value;
      var nodeIds := db.selectNodesFromWays(ids);
      && (nodeIds.Failure? ==> r == Failure(nodeIds.error))
      && (nodeIds.Success? && db.extractNodes(nodeIds.value).Failure? ==>
            r == Failure(db.extractNodes(nodeIds.value).error))
      && (nodeIds.Success? && db.extractNodes(nodeIds.value).Success? && db.extractWays(ids).Failure? ==>
            r == Failure(db.extractWays(ids).error))
      && (nodeIds.Success? && db.extractNodes(nodeIds.value).Success? && db.extractWays(ids).Success? ==>
            r == Success(New().(nodes := db.extractNodes(nodeIds.value).value, ways := db.extractWays(ids).value)))
  {
    var ids :- ResolveVisible(db.selectWays, db.isWayVisible, id);
    var nodeIds :- db.selectNodesFromWays(ids);
    var nodes :- db.extractNodes(nodeIds);
    var ways :- db.extractWays(ids);
    Success(New().(nodes := nodes, ways := ways))
  }

  /** With the row contracts, a `/way/:id/full` answer holds the selected way
      and every existing node it references, each once and in ascending id
      order, and no relation. */
  lemma WayFullContents(db: OsmDb, id: Id, nodeTable: set<Id>, wayTable: set<Id>)
    requires ExtractsCurrent(db.extractNodes, NodeId, nodeTable)
    requires ExtractsCurrent(db.extractWays, WayId, wayTable)
    ensures WayFullHandler(db, id).Success? ==>
      var ids := db.selectWays(id).value;
      var d := WayFullHandler(db, id).value;
      && ListsOnce(d.ways, WayId, ids, wayTable)
      && ListsOnce(d.nodes, NodeId, db.selectNodesFromWays(ids).value, nodeTable)
      && |d.relations| == 0
  {
  }

  /** The ids `/relation/:id/full` collects for the selected relations: member
      nodes, member ways, the nodes of those ways and member relations, queried
      in that order. */
  function RelationClosure(db: OsmDb, ids: seq<Id>): (r: Result<Wanted, Error>)
    ensures db.selectNodesFromRelations(ids).Failure? ==> r == Failure(db.selectNodesFromRelations(ids).error)
    ensures db.selectNodesFromRelations(ids).Success? && db.selectWaysFromRelations(ids).Failure? ==>
      r == Failure(db.selectWaysFromRelations(ids).error)
    ensures db.selectNodesFromRelations(ids).Success? && db.selectWaysFromRelations(ids).Success? ==>
      var nfw := db.selectNodesFromWays(db.selectWaysFromRelations(ids).value);
      && (nfw.Failure? ==> r == Failure(nfw.error))
      && (nfw.Success? && db.selectRelationMembersFromRelations(ids).Failure? ==>
            r == Failure(db.selectRelationMembersFromRelations(ids).error))
    ensures r.Success? ==>
      && db.selectNodesFromRelations(ids).Success? && db.selectWaysFromRelations(ids).Success?
      && db.selectNodesFromWays(db.selectWaysFromRelations(ids).value).Success?
      && db.selectRelationMembersFromRelations(ids).Success?
      // member nodes first, then the nodes of member ways
      && r.value.nodeIds == db.selectNodesFromRelations(ids).value
                            + db.selectNodesFromWays(db.selectWaysFromRelations(ids).value).value
      && r.value.wayIds == db.selectWaysFromRelations(ids).value
      // the relations themselves first, then their member relations
      && r.value.relationIds == ids + db.selectRelationMembersFromRelations(ids).value
  {
    var nodesFromRelations :- db.selectNodesFromRelations(ids);
    var waysFromRelations :- db.selectWaysFromRelations(ids);
    var nodesFromWays :- db.selectNodesFromWays(waysFromRelations);
    var relationsFromRelations :- db.selectRelationMembersFromRelations(ids);
    Success(Wanted(nodesFromRelations + nodesFromWays, waysFromRelations, ids + relationsFromRelations))
  }

  /** `/relation/:id/full`: the gate on the relation, its closure, the extraction. */
  function RelationFullHandler(db: OsmDb, id: Id): (r: Result<Document, Error>)
    ensures GateRespected(db.selectRelations, db.isRelationVisible, id, r)
    ensures Admitted(db.selectRelations, db.isRelationVisible, id) ==>
      var w := RelationClosure(db, db.selectRelations(id).value);
      && (w.Failure? ==> r == Failure(w.error))
      && (w.Success? ==> r == ExtractAll(db, w.value))
  {
    var ids :- ResolveVisible(db.selectRelations, db.isRelationVisible, id);
    var w :- RelationClosure(db, ids);
    ExtractAll(db, w)
  }

  /** The response of `/relation/:id/full` includes the requested relation and
      every existing member node, member way, node of a member way and member
      relation, each once. */
  lemma RelationFullContents(db: OsmDb, id: Id, nodeTable: set<Id>, wayTable: set<Id>, relationTable: set<Id>)
    requires ExtractsCurrent(db.extractNodes, NodeId, nodeTable)
    requires ExtractsCurrent(db.extractWays, WayId, wayTable)
    requires ExtractsCurrent(db.extractRelations, RelationId, relationTable)
    ensures RelationFullHandler(db, id).Success? ==>
      var ids := db.selectRelations(id).value;
      var d := RelationFullHandler(db, id).value;
      && ListsOnce(d.relations, RelationId, ids + db.selectRelationMembersFromRelations(ids).value, relationTable)
      && ListsOnce(d.ways, WayId, db.selectWaysFromRelations(ids).value, wayTable)
      && ListsOnce(d.nodes, NodeId, db.selectNodesFromRelations(ids).value
                                   + db.selectNodesFromWays(db.selectWaysFromRelations(ids).value).value, nodeTable)
      && Elems(ids) * relationTable <= Keys(d.relations, RelationId)
  {
    if RelationFullHandler(db, id).Success? {
      var ids := db.selectRelations(id).value;
      var w := RelationClosure(db, ids).value;
      ExtractAllListsOnce(db, w, nodeTable, wayTable, relationTable);
    }
  }

  /** The ids `/map` collects from the nodes inside the bounding box: the ways
      using them, those ways' nodes, relations holding those ways, relations
      holding any of the nodes, and relations holding those relations. */
  function MapClosure(db: OsmDb, bbox: BoundingBox): (r: Result<Wanted, Error>)
    ensures db.selectNodesFromBbox(bbox).Failure? ==> r == Failure(db.selectNodesFromBbox(bbox).error)
    ensures db.selectNodesFromBbox(bbox).Success? && |db.selectNodesFromBbox(bbox).value| == 0 ==>
      r == Failure(NotFound)
    ensures db.selectNodesFromBbox(bbox).Success? && |db.selectNodesFromBbox(bbox).value| > MaxNodes ==>
      r == Failure(NotFound)
    ensures db.selectNodesFromBbox(bbox).Success? && 0 < |db.selectNodesFromBbox(bbox).value| <= MaxNodes ==>
      var inBox := db.selectNodesFromBbox(bbox).value;
      var wfn := db.selectWaysFromNodes(inBox);
      && (wfn.Failure? ==> r == Failure(wfn.error))
      && (wfn.Success? ==>
            var nfw := db.selectNodesFromWays(wfn.value);
            && (nfw.Failure? ==> r == Failure(nfw.error))
            && (nfw.Success? ==>
                  var rfw := db.selectRelationsFromWays(wfn.value);
                  && (rfw.Failure? ==> r == Failure(rfw.error))
                  && (rfw.Success? ==>
                        var rfn := db.selectRelationsFromNodes(inBox + nfw.value);
                        && (rfn.Failure? ==> r == Failure(rfn.error))
                        && (rfn.Success? ==>
                              var rfr := db.selectRelationsFromRelations(rfw.value + rfn.value);
                              && (rfr.Failure? ==> r == Failure(rfr.error))
                              && (rfr.Success? ==>
                                    r == Success(Wanted(inBox + nfw.value, wfn.value,
                                                        rfw.value + (rfr.value + rfn.value))))))))
  {
    var inBox :- db.selectNodesFromBbox(bbox);
    if |inBox| == 0 then Failure(NotFound)
    else if |inBox| > MaxNodes then Failure(NotFound)
    else
      var waysFromNodes :- db.selectWaysFromNodes(inBox);
      var nodesFromWays :- db.selectNodesFromWays(waysFromNodes);
      var relationsFromWays :- db.selectRelationsFromWays(waysFromNodes);
      var relationsFromNodes :- db.selectRelationsFromNodes(inBox + nodesFromWays);
      var relationsFromRelations :- db.selectRelationsFromRelations(relationsFromWays + relationsFromNodes);
      Success(Wanted(inBox + nodesFromWays, waysFromNodes,
                     relationsFromWays + (relationsFromRelations + relationsFromNodes)))
  }

  /** `/map`: the closure of the bounding box, then the extraction. */
  function MapHandler(db: OsmDb, bbox: BoundingBox): (r: Result<Document, Error>)
    ensures MapClosure(db, bbox).Failure? ==> r == Failure(MapClosure(db, bbox).error)
    ensures MapClosure(db, bbox).Success? ==> r == ExtractAll(db, MapClosure(db, bbox).value)
    ensures r.Success? ==>
      db.selectNodesFromBbox(bbox).Success? && 0 < |db.selectNodesFromBbox(bbox).value| <= MaxNodes
  {
    var w :- MapClosure(db, bbox);
    ExtractAll(db, w)
  }

  /** The cap is inclusive: a bounding box with exactly `MaxNodes` nodes is
      served, one with a node more is refused whatever the rest of the store. */
  lemma MapCapBoundary(db: OsmDb, bbox: BoundingBox)
    ensures db.selectNodesFromBbox(bbox).Success? && |db.selectNodesFromBbox(bbox).value| == MaxNodes + 1 ==>
      MapHandler(db, bbox) == Failure(NotFound)
    ensures db.selectNodesFromBbox(bbox).Success? && |db.selectNodesFromBbox(bbox).value| == MaxNodes ==>
      var wfn := db.selectWaysFromNodes(db.selectNodesFromBbox(bbox).value);
      && (wfn.Failure? ==> MapHandler(db, bbox) == Failure(wfn.error))
      && (wfn.Success? && db.selectNodesFromWays(wfn.value).Failure? ==>
            MapHandler(db, bbox) == Failure(db.selectNodesFromWays(wfn.value).error))
  {
  }

  /** A served map answer holds every existing node of the bounding box and of
      the ways using them, every such way and every collected relation, each once. */
  lemma MapContents(db: OsmDb, bbox: BoundingBox, nodeTable: set<Id>, wayTable: set<Id>, relationTable: set<Id>)
    requires ExtractsCurrent(db.extractNodes, NodeId, nodeTable)
    requires ExtractsCurrent(db.extractWays, WayId, wayTable)
    requires ExtractsCurrent(db.extractRelations, RelationId, relationTable)
    ensures MapHandler(db, bbox).Success? ==>
      var w := MapClosure(db, bbox).value;
      var d := MapHandler(db, bbox).value;
      && ListsOnce(d.nodes, NodeId, w.nodeIds, nodeTable)
      && ListsOnce(d.ways, WayId, w.wayIds, wayTable)
      && ListsOnce(d.relations, RelationId, w.relationIds, relationTable)
      && Elems(db.selectNodesFromBbox(bbox).value) * nodeTable <= Keys(d.nodes, NodeId)
  {
    if MapHandler(db, bbox).Success? {
      ExtractAllListsOnce(db, MapClosure(db, bbox).value, nodeTable, wayTable, relationTable);
    }
  }
}
