/** The OSM document model: nodes, ways, relations and changesets, the document
    that carries them with its fixed header, and the comparators the canonical
    sort uses. */
module Osm {
  import opened Wrappers
  import StringOrder
  import opened Sorting

  /** 64-bit entity, changeset and user ids; the model performs no arithmetic on them. */
  type Id = int
  /** A coordinate in the store's fixed-point representation (1e-7 degree). */
  type Coord = int
  /** A timestamp, in seconds. */
  type Time = int

  datatype Tag = Tag(k: string, v: string)

  /** A point. Lat/Lon and the user fields are nullable. */
  datatype Node = Node(
    id: Id,
    lat: Option<Coord>,
    lon: Option<Coord>,
    user: Option<string>,
    uid: Option<Id>,
    visible: bool,
    version: int,
    changeset: Id,
    timestamp: Time,
    tags: seq<Tag>)

  /** An ordered polyline; `nodeRefs` are the ids of its nodes, in path order. */
  datatype Way = Way(
    id: Id,
    visible: bool,
    version: int,
    user: Option<string>,
    uid: Option<Id>,
    changeset: Id,
    timestamp: Time,
    nodeRefs: seq<Id>,
    tags: seq<Tag>)

  /** A relation member; `kind` is the member's type string ("node", "way", "relation"). */
  datatype Member = Member(kind: string, ref: Id, role: string)

  datatype Relation = Relation(
    id: Id,
    visible: bool,
    version: int,
    user: Option<string>,
    uid: Option<Id>,
    changeset: Id,
    timestamp: Time,
    tags: seq<Tag>,
    members: seq<Member>)

  datatype Comment = Comment(user: string, uid: Id, timestamp: Time, text: string)

  datatype Discussion = Discussion(comments: seq<Comment>)

  /** A changeset; the bounding box is kept in fixed-point coordinates. */
  datatype Changeset = Changeset(
    id: Id,
    user: Option<string>,
    uid: Option<Id>,
    createdAt: Time,
    closedAt: Time,
    open: bool,
    changesCount: int,
    minLat: Coord,
    maxLat: Coord,
    minLon: Coord,
    maxLon: Coord,
    commentsCount: int,
    tags: seq<Tag>,
    discussion: Option<Discussion>)

  /** The closed union of everything a document flattens into. */
  datatype Object =
    | NodeObject(node: Node)
    | WayObject(way: Way)
    | RelationObject(relation: Relation)
    | ChangesetObject(changeset: Changeset)

  /** The top-level document: header metadata plus four collections. */
  datatype Document = Document(
    version: real,
    generator: string,
    copyright: string,
    attribution: string,
    license: string,
    nodes: seq<Node>,
    ways: seq<Way>,
    relations: seq<Relation>,
    changesets: seq<Changeset>)

  const Copyright: string := "OpenStreetMap and contributors"
  const Attribution: string := "http://www.openstreetmap.org/copyright"
  const License: string := "http://opendatacommons.org/licenses/odbl/1-0/"
  const Version: real := 0.6
  const Generator: string := "Gomap"

  /** The header every response carries. */
  predicate HasStandardHeader(d: Document) {
    && d.version == Version
    && d.generator == Generator
    && d.copyright == Copyright
    && d.attribution == Attribution
    && d.license == License
  }

  /** A fresh response document: the standard header and no content. */
  function New(): (d: Document)
    ensures HasStandardHeader(d)
    ensures d.nodes == [] && d.ways == [] && d.relations == [] && d.changesets == []
  {
    Document(Version, Generator, Copyright, Attribution, License, [], [], [], [])
  }

  /** `objs` lists the document's nodes, then ways, then relations, then changesets. */
  predicate Flattened(d: Document, objs: seq<Object>) {
    && |objs| == |d.nodes| + |d.ways| + |d.relations| + |d.changesets|
    && (forall i :: 0 <= i < |d.nodes| ==> objs[i] == NodeObject(d.nodes[i]))
    && (forall i :: 0 <= i < |d.ways| ==> objs[|d.nodes| + i] == WayObject(d.ways[i]))
    && (forall i :: 0 <= i < |d.relations| ==>
          objs[|d.nodes| + |d.ways| + i] == RelationObject(d.relations[i]))
    && (forall i :: 0 <= i < |d.changesets| ==>
          objs[|d.nodes| + |d.ways| + |d.relations| + i] == ChangesetObject(d.changesets[i]))
  }

  /** All objects of a document; a nil document has none (nil, not an empty list). */
  function Objects(o: Option<Document>): (r: Option<seq<Object>>)
    ensures o.None? <==> r.None?
    ensures o.Some? ==> Flattened(o.value, r.value)
  {
    match o
    case None => None
    case Some(d) =>
      Some(seq(|d.nodes|, i requires 0 <= i < |d.nodes| => NodeObject(d.nodes[i]))
        + seq(|d.ways|, i requires 0 <= i < |d.ways| => WayObject(d.ways[i]))
        + seq(|d.relations|, i requires 0 <= i < |d.relations| => RelationObject(d.relations[i]))
        + seq(|d.changesets|, i requires 0 <= i < |d.changesets| => ChangesetObject(d.changesets[i])))
  }

  /** Which collection the object at position `i` of a flattening came from. */
  lemma FlattenedKind(d: Document, objs: seq<Object>, i: int)
    requires Flattened(d, objs) && 0 <= i < |objs|
    ensures objs[i].NodeObject? <==> i < |d.nodes|
    ensures objs[i].WayObject? <==> |d.nodes| <= i < |d.nodes| + |d.ways|
    ensures objs[i].RelationObject? <==>
      |d.nodes| + |d.ways| <= i < |d.nodes| + |d.ways| + |d.relations|
  {
    var n, w, r := |d.nodes|, |d.ways|, |d.relations|;
    if i < n {
      assert objs[i] == NodeObject(d.nodes[i]);
    } else if i < n + w {
      assert objs[n + (i - n)] == WayObject(d.ways[i - n]);
    } else if i < n + w + r {
      assert objs[n + w + (i - n - w)] == RelationObject(d.relations[i - n - w]);
    } else {
      assert objs[n + w + r + (i - n - w - r)] == ChangesetObject(d.changesets[i - n - w - r]);
    }
  }

  /** The flattening forgets nothing: equal object lists come from documents with
      equal collections (headers aside). */
  lemma FlattenedInjective(a: Document, b: Document, objs: seq<Object>)
    requires Flattened(a, objs) && Flattened(b, objs)
    ensures a.nodes == b.nodes && a.ways == b.ways
    ensures a.relations == b.relations && a.changesets == b.changesets
  {
    assert |a.nodes| == |b.nodes| by {
      if |a.nodes| < |b.nodes| {
        FlattenedKind(a, objs, |a.nodes|);
        FlattenedKind(b, objs, |a.nodes|);
      } else if |b.nodes| < |a.nodes| {
        FlattenedKind(a, objs, |b.nodes|);
        FlattenedKind(b, objs, |b.nodes|);
      }
    }
    var n := |a.nodes|;
    assert a.nodes == b.nodes by {
      forall i | 0 <= i < n ensures a.nodes[i] == b.nodes[i] {
        assert objs[i] == NodeObject(a.nodes[i]);
      }
    }
    assert |a.ways| == |b.ways| by {
      if |a.ways| < |b.ways| {
        FlattenedKind(a, objs, n + |a.ways|);
        FlattenedKind(b, objs, n + |a.ways|);
      } else if |b.ways| < |a.ways| {
        FlattenedKind(a, objs, n + |b.ways|);
        FlattenedKind(b, objs, n + |b.ways|);
      }
    }
    var w := |a.ways|;
    assert a.ways == b.ways by {
      forall i | 0 <= i < w ensures a.ways[i] == b.ways[i] {
        assert objs[n + i] == WayObject(a.ways[i]);
      }
    }
    assert |a.relations| == |b.relations| by {
      if |a.relations| < |b.relations| {
        FlattenedKind(a, objs, n + w + |a.relations|);
        FlattenedKind(b, objs, n + w + |a.relations|);
      } else if |b.relations| < |a.relations| {
        FlattenedKind(a, objs, n + w + |b.relations|);
        FlattenedKind(b, objs, n + w + |b.relations|);
      }
    }
    var r := |a.relations|;
    assert a.relations == b.relations by {
      forall i | 0 <= i < r ensures a.relations[i] == b.relations[i] {
        assert objs[n + w + i] == RelationObject(a.relations[i]);
      }
    }
    assert a.changesets == b.changesets by {
      forall i | 0 <= i < |a.changesets| ensures a.changesets[i] == b.changesets[i] {
        assert objs[n + w + r + i] == ChangesetObject(a.changesets[i]);
      }
    }
  }

  /** Two flattenings are equal exactly when the documents' four collections are. */
  lemma FlattenedEqualIff(a: Document, oa: seq<Object>, b: Document, ob: seq<Object>)
    requires Flattened(a, oa) && Flattened(b, ob)
    ensures oa == ob <==>
      && a.nodes == b.nodes && a.ways == b.ways
      && a.relations == b.relations && a.changesets == b.changesets
  {
    if oa == ob {
      FlattenedInjective(a, b, oa);
    } else if a.nodes == b.nodes && a.ways == b.ways && a.relations == b.relations
              && a.changesets == b.changesets {
      assert Flattened(a, ob);
      forall i | 0 <= i < |oa| ensures oa[i] == ob[i] {
        var n, w, r := |a.nodes|, |a.ways|, |a.relations|;
        if i < n {
        } else if i < n + w {
          var k := i - n;
          assert oa[n + k] == WayObject(a.ways[k]) == ob[n + k];
        } else if i < n + w + r {
          var k := i - n - w;
          assert oa[n + w + k] == RelationObject(a.relations[k]) == ob[n + w + k];
        } else {
          var k := i - n - w - r;
          assert oa[n + w + r + k] == ChangesetObject(a.changesets[k]) == ob[n + w + r + k];
        }
      }
    }
  }

  // Comparators of the canonical sort, each written as the source's `less`.

  /** Tags by key, then by value. */
  predicate TagLess(a: Tag, b: Tag) {
    if StringOrder.Less(a.k, b.k) then true
    else if StringOrder.Less(b.k, a.k) then false
    else StringOrder.Less(a.v, b.v)
  }

  /** Way node references by referenced id. */
  predicate RefLess(a: Id, b: Id) {
    a < b
  }

  /** Members by ref ascending, then type ascending, then role DESCENDING. */
  predicate MemberLess(a: Member, b: Member) {
    if a.ref < b.ref then true
    else if a.ref > b.ref then false
    else if StringOrder.Less(a.kind, b.kind) then true
    else if StringOrder.Less(b.kind, a.kind) then false
    else StringOrder.Less(b.role, a.role)
  }

  predicate NodeLess(a: Node, b: Node) {
    a.id < b.id
  }

  predicate WayLess(a: Way, b: Way) {
    a.id < b.id
  }

  predicate RelationLess(a: Relation, b: Relation) {
    a.id < b.id
  }

  /** Equal keys compare equal under the key-then-value comparison. */
  lemma TagLessIsLexicographic(a: Tag, b: Tag)
    ensures TagLess(a, b) <==>
      StringOrder.Less(a.k, b.k) || (a.k == b.k && StringOrder.Less(a.v, b.v))
  {
    if a.k == b.k {
      StringOrder.Irreflexive(a.k);
    } else {
      StringOrder.Connected(a.k, b.k);
      if StringOrder.Less(a.k, b.k) {
        StringOrder.Asymmetric(a.k, b.k);
      }
    }
  }

  lemma TagLessIsTotal()
    ensures StrictTotalOrder(TagLess)
  {
    forall a, b | TagLess(a, b) ensures !TagLess(b, a) {
      TagLessIsLexicographic(a, b);
      TagLessIsLexicographic(b, a);
      if a.k == b.k {
        StringOrder.Irreflexive(a.k);
        StringOrder.Asymmetric(a.v, b.v);
      } else {
        StringOrder.Asymmetric(a.k, b.k);
      }
    }
    forall a, b, c | TagLess(a, b) && TagLess(b, c) ensures TagLess(a, c) {
      TagLessIsLexicographic(a, b);
      TagLessIsLexicographic(b, c);
      TagLessIsLexicographic(a, c);
      if a.k == b.k && b.k == c.k {
        StringOrder.Transitive(a.v, b.v, c.v);
      } else if a.k != b.k && b.k != c.k {
        StringOrder.Transitive(a.k, b.k, c.k);
      }
    }
    forall a, b | a != b ensures TagLess(a, b) || TagLess(b, a) {
      TagLessIsLexicographic(a, b);
      TagLessIsLexicographic(b, a);
      if a.k == b.k {
        StringOrder.Connected(a.v, b.v);
      } else {
        StringOrder.Connected(a.k, b.k);
      }
    }
    StrictTotalOrderFromParts(TagLess);
  }

  lemma RefLessIsTotal()
    ensures StrictTotalOrder(RefLess)
  {
  }

  /** With equal refs and equal types, members compare by role, reversed. */
  lemma MemberLessIsLexicographic(a: Member, b: Member)
    ensures MemberLess(a, b) <==>
      || a.ref < b.ref
      || (a.ref == b.ref && StringOrder.Less(a.kind, b.kind))
      || (a.ref == b.ref && a.kind == b.kind && StringOrder.Less(b.role, a.role))
  {
    if a.kind == b.kind {
      StringOrder.Irreflexive(a.kind);
    } else {
      StringOrder.Connected(a.kind, b.kind);
      if StringOrder.Less(a.kind, b.kind) {
        StringOrder.Asymmetric(a.kind, b.kind);
      }
    }
  }

  lemma MemberLessIsTotal()
    ensures StrictTotalOrder(MemberLess)
  {
    forall a, b | MemberLess(a, b) ensures !MemberLess(b, a) {
      MemberLessIsLexicographic(a, b);
      MemberLessIsLexicographic(b, a);
      if a.ref == b.ref && a.kind == b.kind {
        StringOrder.Irreflexive(a.kind);
        StringOrder.Asymmetric(b.role, a.role);
      } else if a.ref == b.ref {
        StringOrder.Asymmetric(a.kind, b.kind);
      }
    }
    forall a, b, c | MemberLess(a, b) && MemberLess(b, c) ensures MemberLess(a, c) {
      MemberLessIsLexicographic(a, b);
      MemberLessIsLexicographic(b, c);
      MemberLessIsLexicographic(a, c);
      if a.ref == b.ref == c.ref {
        if a.kind == b.kind && b.kind == c.kind {
          StringOrder.Transitive(c.role, b.role, a.role);
        } else if a.kind != b.kind && b.kind != c.kind {
          StringOrder.Transitive(a.kind, b.kind, c.kind);
        }
      }
    }
    forall a, b | a != b ensures MemberLess(a, b) || MemberLess(b, a) {
      MemberLessIsLexicographic(a, b);
      MemberLessIsLexicographic(b, a);
      if a.ref == b.ref && a.kind == b.kind {
        StringOrder.Connected(a.role, b.role);
      } else if a.ref == b.ref {
        StringOrder.Connected(a.kind, b.kind);
      }
    }
    StrictTotalOrderFromParts(MemberLess);
  }

  /** Ordering entities by id is a strict weak order (entities with equal ids
      are incomparable), as `sort.Slice` requires. */
  lemma IdOrdersAreWeak()
    ensures StrictWeakOrder(NodeLess)
    ensures StrictWeakOrder(WayLess)
    ensures StrictWeakOrder(RelationLess)
  {
  }
}
