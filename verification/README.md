# gomap core in Dafny

A model of the request-resolution core of gomap, a read-only server for the
OpenStreetMap API 0.6 (nodes, ways, relations, changesets) backed by a
Postgres copy of the OSM database. The model covers:

- the `osm.OSM` document. This includes its header constants (`New`), the
  flattening into objects (`Objects`), the canonical order used by `sort`,
  the order-insensitive comparison `Equals`, and the attribute and child
  layout of the root XML element;
- every `gomap` handler: by id, batch, full, map, node-ways, version, history
  and changeset. Each is a pure function over an abstract store (`Db.OsmDb`)
  whose prepared queries are function-valued fields returning rows or an
  error;
- the list helpers `appendIfUnique` and `appendVersionIfUnique`, and
  `arrayToString`, which writes id lists into query text.

Module layout:

| file | module | models |
|---|---|---|
| wrappers.dfy | Wrappers | `Option` and `Result` |
| string_order.dfy | StringOrder | Go's `<` on strings |
| sorting.dfy | Sorting | a deterministic sort standing in for `sort.Slice` |
| osm.dfy | Osm | entities, `New`, `Objects`, the comparators of `sort` |
| canonical.dfy | OsmCanonical | `sort` and `Equals` |
| xml.dfy | OsmXml | `MarshalXML` and `marshalInnerXML` |
| store.dfy | Db | the store's queries, and the row contracts lemmas may assume |
| resolve.dfy | Resolve | the existence-then-visibility gate shared by the handlers |
| element_handlers.dfy | ElementHandlers | node, way, relation, changeset and node-ways handlers |
| batch_handlers.dfy | BatchHandlers | nodes, ways and relations batch handlers |
| closure_handlers.dfy | ClosureHandlers | way-full, relation-full and map handlers |
| history_handlers.dfy | HistoryHandlers | version and history handlers |
| server_helpers.dfy | ServerHelpers | `appendIfUnique`, `appendVersionIfUnique` |
| db_helpers.dfy | DbHelpers | `arrayToString` |

Handler errors are `Db.Error`. `NotFound` stands for `ErrElementNotFound`, and
`Deleted` for `ErrElementDeleted`. Any other store error is an opaque `Infra`
value that the handlers pass on unchanged.

The store is not trusted. The handler contracts hold for every store. A few
lemmas need to know what the SQL returns, and they take that as a stated
precondition:

- `Db.ExtractsCurrent`: one row per existing requested id, in ascending id order;
- `Db.ExtractsHistorical`: one row per requested occurrence of an existing pair,
  so a pair requested twice comes back twice (the query joins the wanted
  pairs without DISTINCT);
- `Db.SelectsHistory`: some versions of the element (the query keeps only
  unredacted ones), each once, all of them stored;
- `Db.DiscussionOnlyOnRequest`: discussions only when asked for.

Three behaviours of the code worth noting:

- Relation members are ordered by role DESCENDING within equal ref and type
  (osm/osm.go:225 uses `>`).
- `/node/:id/ways` extracts ways using node ids (see Findings).
- The full and map handlers do not de-duplicate id lists themselves. They
  concatenate them, and each element appears once only because the
  extraction query answers each id once (`ClosureHandlers.ExtractAllListsOnce`).

## Model

| member | source | states |
|---|---|---|
| Osm.New | osm/osm.go:41-49 | the new document carries version 0.6, generator "Gomap" and the three licence strings, and holds no elements |
| Osm.Objects | osm/osm.go:53-73 | a missing document has no object list; otherwise the list is the nodes, then the ways, then the relations, then the changesets, each in its own order |
| Osm.FlattenedEqualIff | osm/osm.go:53-73 | two flattened object lists are equal exactly when the four collections are pairwise equal (no object of one kind can stand in for another) |
| StringOrder.Irreflexive | osm/osm.go:186-192 | no string is below itself in Go's byte order |
| StringOrder.Transitive | osm/osm.go:186-192 | the string order is transitive |
| StringOrder.Connected | osm/osm.go:186-192 | of two different strings one is below the other |
| StringOrder.Asymmetric | osm/osm.go:186-192 | never both a < b and b < a |
| Osm.TagLessIsLexicographic | osm/osm.go:185-193 | the tag comparator orders by key and, on equal keys, by value |
| Osm.TagLessIsTotal | osm/osm.go:185-193 | the tag comparator is a strict total order on tags |
| Osm.RefLessIsTotal | osm/osm.go:197-199 | node references are ordered strictly and totally by id |
| Osm.MemberLessIsLexicographic | osm/osm.go:212-226 | members order by ref ascending, then type ascending, then role descending |
| Osm.MemberLessIsTotal | osm/osm.go:212-226 | the member comparator is a strict total order on members |
| Osm.IdOrdersAreWeak | osm/osm.go:238-240 | ordering nodes, ways and relations by id is a strict weak order |
| Sorting.Sort | osm/osm.go:238-240 | the sort returns a permutation of its input, sorted whenever the comparator is a strict weak order |
| Sorting.SortSortedIsIdentity | osm/osm.go:183-241 | sorting an already sorted list leaves it unchanged |
| Sorting.SortedPermutationUnique | osm/osm.go:183-241 | two sorted permutations of a list whose elements the order tells apart are identical |
| Sorting.SortPermutationInvariant | osm/osm.go:183-241 | under such an order, sorting any permutation of a list gives the same result |
| OsmCanonical.CanonicalNode | osm/osm.go:184-194 | a node's tags become a sorted permutation of themselves; nothing else about the node changes |
| OsmCanonical.CanonicalWay | osm/osm.go:196-209 | a way's node references and tags become sorted permutations of themselves; nothing else changes |
| OsmCanonical.CanonicalRelation | osm/osm.go:211-236 | a relation's members and tags become sorted permutations of themselves; nothing else changes |
| OsmCanonical.CanonicalNodes | osm/osm.go:184-194 | every node of a list is canonicalised in place |
| OsmCanonical.CanonicalWays | osm/osm.go:196-209 | every way of a list is canonicalised in place |
| OsmCanonical.CanonicalRelations | osm/osm.go:211-236 | every relation of a list is canonicalised in place |
| OsmCanonical.SortDocument | osm/osm.go:183-241 | the result is canonical, its node, way and relation lists are permutations of the canonicalised inputs, and the header and changesets are untouched |
| OsmCanonical.CanonicalIffSortIsIdentity | osm/osm.go:183-241 | sorting leaves a document unchanged exactly when it is already canonical |
| OsmCanonical.SortDocumentIdempotent | osm/osm.go:183-241 | sorting twice is sorting once |
| OsmCanonical.CanonicalNodeSameIffPermutedTags | osm/osm.go:184-194 | two nodes canonicalise alike exactly when they differ only by tag order |
| OsmCanonical.CanonicalWaySameIffPermuted | osm/osm.go:196-209 | two ways canonicalise alike exactly when they differ only by node-reference and tag order |
| OsmCanonical.CanonicalRelationSameIffPermuted | osm/osm.go:211-236 | two relations canonicalise alike exactly when they differ only by member and tag order |
| OsmCanonical.Equals | osm/osm.go:177-181 | both documents are left sorted, and the answer is true exactly when their sorted node, way, relation and changeset lists coincide |
| OsmCanonical.EqualsReflexive | osm/osm.go:177-181 | every document equals itself |
| OsmCanonical.EqualsSymmetric | osm/osm.go:177-181 | the comparison does not depend on argument order |
| OsmCanonical.EqualsTransitive | osm/osm.go:177-181 | the comparison is transitive |
| OsmCanonical.EqualsIgnoresHeader | osm/osm.go:177-181 | the header attributes never influence the comparison |
| OsmCanonical.EqualsImpliesSameContent | osm/osm.go:177-181 | equal documents hold the same canonical elements, regardless of order, and the same changesets |
| OsmCanonical.SameContentImpliesEquals | osm/osm.go:177-181 | documents with the same canonical elements and the same changesets compare equal, whatever their element, tag, reference and member order, when ids are unique per kind |
| OsmXml.Emit | osm/osm.go:98-119 | prepending an attribute of lower rank than the rest keeps the attributes in emission order |
| OsmXml.EmitLookup | osm/osm.go:98-119 | an omitted attribute cannot be found, an emitted one is found with its value, and the others are found as before |
| OsmXml.RootAttributes | osm/osm.go:94-119 | root attributes come in the order version, generator, copyright, attribution, license; each is present exactly when its field is non-zero or non-empty, with that field's value |
| OsmXml.RootLookups | osm/osm.go:98-119 | looking up each attribute name in the emitted chain finds the header field or nothing |
| OsmXml.LookupThrough | osm/osm.go:98-119 | the lookup of one attribute name is decided by its own emission step alone |
| OsmXml.InnerElements | osm/osm.go:132-154 | a missing document has no children; otherwise the children are nodes, ways, relations, changesets in that order |
| OsmXml.MarshalXml | osm/osm.go:94-130 | the root element is named osm, carries the root attributes and contains the inner elements |
| OsmXml.NewMarshalsFullHeader | osm/osm.go:41-49 | a fresh document serialises with all five header attributes, in order, and no children |
| OsmXml.WireOrderIsObjectOrder | osm/osm.go:137-151 | the serialised children are exactly the document's object list |
| Resolve.CheckVisible | gomap/node_handler.go:17-25 | the check passes exactly when every id reads visible; otherwise the first id that errs or is invisible decides the error (its store error, or Deleted) |
| Resolve.ResolveVisible | gomap/node_handler.go:9-25 | a selection error is returned; an empty selection is NotFound; the first failed visibility check wins; an admitted id yields the selected ids |
| ElementHandlers.NodeHandler | gomap/node_handler.go:8-35 | the gate decides every refusal; once admitted, an extraction error is returned, else the answer holds exactly the extracted nodes under a fresh header |
| ElementHandlers.WayHandler | gomap/way_handler.go:8-35 | as for nodes, with the ways |
| ElementHandlers.RelationHandler | gomap/relation_handler.go:8-35 | as for nodes, with the relations |
| ElementHandlers.GatedRowsVisible | gomap/node_handler.go:9-30 | every row a gated handler returns was selected for the requested id and reported visible |
| ElementHandlers.NodeHandlerOnlyVisible | gomap/node_handler.go:9-34 | a node answer holds only selected nodes reported visible |
| ElementHandlers.WayHandlerOnlyVisible | gomap/way_handler.go:9-34 | a way answer holds only selected ways reported visible |
| ElementHandlers.RelationHandlerOnlyVisible | gomap/relation_handler.go:9-34 | a relation answer holds only selected relations reported visible |
| ElementHandlers.ChangesetHandler | gomap/changeset_handler.go:8-25 | a selection error is returned; no changeset is NotFound; there is no visibility check; the discussion flag is passed to the extraction unchanged and only changesets are filled |
| ElementHandlers.ChangesetWithoutDiscussion | db/changeset.go:58-60 | without the flag, no returned changeset carries a discussion |
| ElementHandlers.NodeWaysGate | gomap/node_ways_handler.go:7-31 | the node must exist and some way must reference it (else NotFound); errors pass through; the first invisible referencing way gives Deleted |
| ElementHandlers.NodeWaysHandler | gomap/node_ways_handler.go:6-41 | as written: after the gate, ways are extracted using the node ids |
| ElementHandlers.NodeWaysHandlerCorrected | gomap/node_ways_handler.go:33 | corrected: after the gate, the referencing ways are extracted |
| ElementHandlers.NodeWaysCorrectedListsReferencingWays | gomap/node_ways_handler.go:15-40 | the corrected handler answers each existing referencing way exactly once |
| ElementHandlers.NodeWaysHandlerDropsReferencingWay | gomap/node_ways_handler.go:33 | with node 1 on visible way 7, the handler as written answers no way, while the corrected one answers way 7 |
| BatchHandlers.Combine | gomap/nodes_handler.go:7-21 | a current-row error wins over a historical-row error; with both extractions done, the answer is current then historical rows when their count equals the number requested, and NotFound otherwise |
| BatchHandlers.RedactNode | gomap/nodes_handler.go:24-28 | an invisible node loses its coordinates and nothing else; a visible node is unchanged |
| BatchHandlers.RedactNodeIdempotent | gomap/nodes_handler.go:24-28 | redaction is stable and keeps the visibility flag |
| BatchHandlers.NodesHandler | gomap/nodes_handler.go:6-32 | errors in call order, the count check, then the current and historical nodes in order with invisible ones redacted |
| BatchHandlers.WaysHandler | gomap/ways_handler.go:6-26 | errors in call order, the count check, then the current ways followed by the historical ones |
| BatchHandlers.RelationsHandler | gomap/relations_handler.go:6-26 | errors in call order, the count check, then the current relations followed by the historical ones |
| BatchHandlers.CombineComplete | gomap/nodes_handler.go:19-21 | for current ids without repeats, the count check passes exactly when every requested id and every requested pair exists, repeated pairs included |
| BatchHandlers.CombineRejectsRepeats | gomap/nodes_handler.go:19-21 | a request repeating a current id always ends in NotFound, because the current query answers each id once |
| BatchHandlers.CombineServesRepeatedPairs | gomap/nodes_handler.go:19-21 | when everything requested exists, the count check passes and the historical rows hold each pair as often as it was requested |
| BatchHandlers.NodesComplete | gomap/nodes_handler.go:6-32 | the nodes answer is complete-or-NotFound as above, and NotFound when a current id repeats |
| BatchHandlers.WaysComplete | gomap/ways_handler.go:6-26 | the ways answer is complete-or-NotFound, and NotFound when a current id repeats |
| BatchHandlers.RelationsComplete | gomap/relations_handler.go:6-26 | the relations answer is complete-or-NotFound, and NotFound when a current id repeats |
| BatchHandlers.NodesRepeatedPair | gomap/nodes_handler.go:6-32 | asking twice for one existing node version answers two nodes, both that version |
| ClosureHandlers.ExtractAll | gomap/relation_full_handler.go:48-64 | nodes, then ways, then relations are extracted; the first failure is returned; success fills exactly those three lists |
| ClosureHandlers.ExtractAllListsOnce | gomap/map_handler.go:47-63 | whatever repetitions the id lists contain, each existing referenced element appears once, in ascending id order |
| ClosureHandlers.WayFullHandler | gomap/way_full_handler.go:8-45 | the way gate, then the way's nodes are selected, then nodes and the way are extracted, with errors in that order; no relations |
| ClosureHandlers.WayFullContents | gomap/way_full_handler.go:27-44 | the answer holds the way and every existing node it references, each once and in ascending id order, and no relation |
| ClosureHandlers.RelationClosure | gomap/relation_full_handler.go:27-46 | member nodes, member ways, nodes of member ways and member relations are queried in that order; the node ids are member nodes then way nodes, and the relation ids are the relation then its member relations |
| ClosureHandlers.RelationFullHandler | gomap/relation_full_handler.go:8-66 | the relation gate, then the closure, then the extraction |
| ClosureHandlers.RelationFullContents | gomap/relation_full_handler.go:44-64 | the answer holds the relation, and every existing member node, member way, node of a member way and member relation, each once |
| ClosureHandlers.MapClosure | gomap/map_handler.go:11-45 | no node in the box, or more than 50000, is NotFound; otherwise the five reference queries run in source order, the first error wins, and the id lists are combined as in the source |
| ClosureHandlers.MapHandler | gomap/map_handler.go:10-65 | the closure, then the extraction; a served map always had between 1 and 50000 nodes in the box |
| ClosureHandlers.MapCapBoundary | gomap/map_handler.go:18-20 | 50001 box nodes are refused whatever the store, while 50000 go on to the way query |
| ClosureHandlers.MapContents | gomap/map_handler.go:43-63 | a served map holds every existing box node, each collected node, way and relation, each once |
| HistoryHandlers.VersionRows | gomap/node_version_handler.go:7-16 | exactly the one requested pair is extracted; an error is returned; no row is NotFound |
| HistoryHandlers.VersionRowsExact | gomap/node_version_handler.go:7-16 | the request succeeds exactly when the version exists, and then answers that one version |
| HistoryHandlers.HistoryRows | gomap/node_history_handler.go:7-18 | the selected versions are extracted; a selection error is returned; no version is NotFound |
| HistoryHandlers.HistoryRowsExact | gomap/node_history_handler.go:7-18 | a history answer holds one row per selected (unredacted) version, each once, all of that element |
| HistoryHandlers.NodeVersionHandler | gomap/node_version_handler.go:6-21 | only nodes are filled, with the version rows; no visibility check |
| HistoryHandlers.WayVersionHandler | gomap/way_version_handler.go:6-21 | only ways are filled, with the version rows |
| HistoryHandlers.RelationVersionHandler | gomap/relation_version_handler.go:6-21 | only relations are filled, with the version rows |
| HistoryHandlers.NodeHistoryHandler | gomap/node_history_handler.go:6-23 | only nodes are filled, with the history rows |
| HistoryHandlers.WayHistoryHandler | gomap/way_history_handler.go:6-23 | only ways are filled, with the history rows |
| HistoryHandlers.RelationHistoryHandler | gomap/relation_history_handler.go:6-23 | only relations are filled, with the history rows |
| HistoryHandlers.NodeHistoryExact | gomap/node_history_handler.go:6-23 | a node history lists each selected (unredacted) version of that node once, deleted versions included |
| HistoryHandlers.WayHistoryExact | gomap/way_history_handler.go:6-23 | a way history lists each selected (unredacted) version of that way once |
| HistoryHandlers.RelationHistoryExact | gomap/relation_history_handler.go:6-23 | a relation history lists each selected (unredacted) version of that relation once |
| HistoryHandlers.NodeVersionExact | gomap/node_version_handler.go:6-21 | a node version answer is exactly that version, or NotFound when it does not exist |
| HistoryHandlers.WayVersionExact | gomap/way_version_handler.go:6-21 | a way version answer is exactly that version, or NotFound |
| HistoryHandlers.RelationVersionExact | gomap/relation_version_handler.go:6-21 | a relation version answer is exactly that version, or NotFound |
| ServerHelpers.AppendUnique | server/helpers.go:3-10 | an element already present leaves the list unchanged, otherwise it is appended; the result contains it, extends the input by at most one, and keeps a repeat-free list repeat-free |
| ServerHelpers.AppendIfUnique | server/helpers.go:3-10 | the same, on ids |
| ServerHelpers.AppendVersionIfUnique | server/helpers.go:12-19 | the same, on (id, version) pairs, equal only when both parts match |
| ServerHelpers.FirstSeenProperties | server/helpers.go:3-10 | folding the helper over tokens keeps each token once and nothing else |
| ServerHelpers.FirstSeenPrefix | server/helpers.go:3-10 | the fold of a prefix of the tokens is a prefix of the fold: first-seen order |
| ServerHelpers.Dedup | server/helpers.go:3-10 | folding `appendIfUnique` over ids computes the first-seen list, without repeats and with every id |
| ServerHelpers.DedupVersions | server/helpers.go:12-19 | the same for pairs with `appendVersionIfUnique` |
| DbHelpers.NatDigits | db/helpers.go:10 | decimal digits, non-empty, without leading zeros |
| DbHelpers.Decimal | db/helpers.go:10 | a non-empty decimal with a leading minus exactly for negatives, without spaces, brackets or commas |
| DbHelpers.DecimalRoundTrip | db/helpers.go:10 | reading a decimal back gives the number |
| DbHelpers.ReplaceChar | db/helpers.go:10 | every space becomes a comma and nothing else changes |
| DbHelpers.Sprint | db/helpers.go:10 | the text is the decimal forms of the ids separated by single spaces, inside square brackets; `[]` for no id |
| DbHelpers.Trim | db/helpers.go:10 | the trimmed string is a slice of the input that neither starts nor ends with a cut character, and everything cut off before and after it is in the cut set |
| DbHelpers.ArrayToString | db/helpers.go:9-11 | the text has no spaces and no brackets |
| DbHelpers.ArrayToStringIsCommaJoin | db/helpers.go:9-11 | the text is the decimal forms of the ids joined by commas, in order |
| DbHelpers.ArrayToStringSmall | db/helpers.go:9-11 | the empty list gives the empty string; one id gives its decimal form |
| DbHelpers.ArrayToStringRoundTrip | db/helpers.go:9-11 | splitting a non-empty list's text at commas and reading each field gives back the list |

## Left out

- Floating point: coordinates, changeset bounds and the bounding box are integers or opaque values. The document version is a `real` that is only compared to zero. `strconv.FormatFloat` of the version is not modelled.
- SQL, connection pooling and row scanning (db/db.go, db/node.go, db/way.go, db/relation.go, db/changeset.go) are not part of this model. The store is a parameter, and what its queries return is stated as lemma preconditions.
- HTTP transport, status mapping and request parsing (server/*.go, router/router.go) are not part of this model. The token parser that calls the list helpers is not among the available files, so the `<id>v<version>` token grammar is not modelled.
- JSON marshalling and the XML encoding of individual elements are left out; only the root element's attributes and child order are modelled.
- Sorting.Sort: `sort.Slice` is not stable, so Go leaves the relative order of elements that compare equal unspecified (several history versions of one id, say). The model uses one deterministic insertion sort. Its contract promises only a sorted permutation, plus uniqueness when the order tells all elements apart.
- OsmCanonical.Equals: `reflect.DeepEqual` distinguishes a nil slice from an empty one; the model has one empty sequence. Go's method also mutates both arguments in place; the model returns the two sorted documents instead.
- OsmCanonical.Equals: `reflect.DeepEqual` on `time.Time` compares the wall clock, the monotonic reading and the Location; the model's timestamp is one integer, so two equal instants in different locations compare equal here.
- OsmCanonical.SameContentImpliesEquals: requires unique ids per kind, because the unstable sort may order equal-id elements differently in the two documents.
- StringOrder.Less: Go's `<` on strings compares UTF-8 bytes, the model compares code points; on valid UTF-8 the two orders agree, and invalid byte sequences are not modelled.
- HistoryHandlers.HistoryRowsExact: the history selection keeps only versions without a redaction (db/db.go:151-193), while the version extraction has no such filter, so a redacted version can be answered by `/node/:id/:version` but is never listed in `/node/:id/history`. The store has no redaction flag, so the model does not say which versions the selection omits; it promises one row per selected version only.
- Changesets are not sorted by `sort` and are compared as they stand, as in the source.
- Nullable Lat/Lon fields are `Option` values. Go's aliasing of appended slices (map_handler.go:34, 38 and 43-45) never changes the values passed to the store, so it is not modelled.

## Findings

| source | as written | input that shows it | evidently intended | confidence | as-written member | corrected member |
|---|---|---|---|---|---|---|
| gomap/node_ways_handler.go:33 | `ExtractWays(ids)` passes the node ids selected for the requested node | node 1 lies on visible way 7: the answer holds no way (or a way that merely shares the node's id) | `ExtractWays(wayIDs)`, the ways referencing the node | high; not executed | ElementHandlers.NodeWaysHandler (counterexample ElementHandlers.NodeWaysHandlerDropsReferencingWay) | ElementHandlers.NodeWaysHandlerCorrected (ElementHandlers.NodeWaysCorrectedListsReferencingWays) |
