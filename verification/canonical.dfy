/** Canonical ordering of a document and the order-insensitive document
    comparison built on it (the source's `sort` and `Equals`). Canonical order
    is used only for comparison, never for serving. */
module OsmCanonical {
  import opened Wrappers
  import opened Sorting
  import opened Osm

  /** Tags sorted by key, then value. */
  predicate IsCanonicalNode(n: Node) {
    Sorted(n.tags, TagLess)
  }

  /** Node references sorted by id, tags sorted by key, then value. */
  predicate IsCanonicalWay(w: Way) {
    Sorted(w.nodeRefs, RefLess) && Sorted(w.tags, TagLess)
  }

  /** Members sorted by (ref, type, role descending), tags by key, then value. */
  predicate IsCanonicalRelation(r: Relation) {
    Sorted(r.members, MemberLess) && Sorted(r.tags, TagLess)
  }

  /** Every entity's inner lists are in canonical order and nodes, ways and
      relations are sorted by id; changesets may be in any order. */
  predicate IsCanonical(d: Document) {
    && (forall i :: 0 <= i < |d.nodes| ==> IsCanonicalNode(d.nodes[i]))
    && (forall i :: 0 <= i < |d.ways| ==> IsCanonicalWay(d.ways[i]))
    && (forall i :: 0 <= i < |d.relations| ==> IsCanonicalRelation(d.relations[i]))
    && Sorted(d.nodes, NodeLess)
    && Sorted(d.ways, WayLess)
    && Sorted(d.relations, RelationLess)
  }

  function CanonicalNode(n: Node): (r: Node)
    ensures IsCanonicalNode(r)
    ensures multiset(r.tags) == multiset(n.tags)
    ensures r.(tags := n.tags) == n
  {
    TagLessIsTotal();
    n.(tags := Sort(n.tags, TagLess))
  }

  function CanonicalWay(w: Way): (r: Way)
    ensures IsCanonicalWay(r)
    ensures multiset(r.nodeRefs) == multiset(w.nodeRefs)
    ensures multiset(r.tags) == multiset(w.tags)
    ensures r.(nodeRefs := w.nodeRefs, tags := w.tags) == w
  {
    TagLessIsTotal();
    RefLessIsTotal();
    w.(nodeRefs := Sort(w.nodeRefs, RefLess), tags := Sort(w.tags, TagLess))
  }

  function CanonicalRelation(r: Relation): (c: Relation)
    ensures IsCanonicalRelation(c)
    ensures multiset(c.members) == multiset(r.members)
    ensures multiset(c.tags) == multiset(r.tags)
    ensures c.(members := r.members, tags := r.tags) == r
  {
    TagLessIsTotal();
    MemberLessIsTotal();
    r.(members := Sort(r.members, MemberLess), tags := Sort(r.tags, TagLess))
  }

  function CanonicalNodes(ns: seq<Node>): (r: seq<Node>)
    ensures |r| == |ns| && forall i :: 0 <= i < |ns| ==> r[i] == CanonicalNode(ns[i])
  {
    seq(|ns|, i requires 0 <= i < |ns| => CanonicalNode(ns[i]))
  }

  function CanonicalWays(ws: seq<Way>): (r: seq<Way>)
    ensures |r| == |ws| && forall i :: 0 <= i < |ws| ==> r[i] == CanonicalWay(ws[i])
  {
    seq(|ws|, i requires 0 <= i < |ws| => CanonicalWay(ws[i]))
  }

  function CanonicalRelations(rs: seq<Relation>): (r: seq<Relation>)
    ensures |r| == |rs| && forall i :: 0 <= i < |rs| ==> r[i] == CanonicalRelation(rs[i])
  {
    seq(|rs|, i requires 0 <= i < |rs| => CanonicalRelation(rs[i]))
  }

  lemma SortedElementsOf<T>(s: seq<T>, t: seq<T>, P: T -> bool)
    requires multiset(s) == multiset(t)
    requires forall i :: 0 <= i < |t| ==> P(t[i])
    ensures forall i :: 0 <= i < |s| ==> P(s[i])
  {
    forall i | 0 <= i < |s| ensures P(s[i]) {
      assert s[i] in multiset(t);
      var j :| 0 <= j < |t| && t[j] == s[i];
    }
  }

  /** The source's `sort`: canonicalises every entity, then orders nodes, ways
      and relations by id. The header and the changesets are left untouched. */
  function SortDocument(d: Document): (r: Document)
    ensures IsCanonical(r)
    ensures multiset(r.nodes) == multiset(CanonicalNodes(d.nodes))
    ensures multiset(r.ways) == multiset(CanonicalWays(d.ways))
    ensures multiset(r.relations) == multiset(CanonicalRelations(d.relations))
    ensures r.(nodes := d.nodes, ways := d.ways, relations := d.relations) == d
  {
    IdOrdersAreWeak();
    var ns := Sort(CanonicalNodes(d.nodes), NodeLess);
    var ws := Sort(CanonicalWays(d.ways), WayLess);
    var rs := Sort(CanonicalRelations(d.relations), RelationLess);
    SortedElementsOf(ns, CanonicalNodes(d.nodes), IsCanonicalNode);
    SortedElementsOf(ws, CanonicalWays(d.ways), IsCanonicalWay);
    SortedElementsOf(rs, CanonicalRelations(d.relations), IsCanonicalRelation);
    d.(nodes := ns, ways := ws, relations := rs)
  }

  /** A document is canonical exactly when sorting leaves it unchanged. */
  lemma CanonicalIffSortIsIdentity(d: Document)
    ensures IsCanonical(d) <==> SortDocument(d) == d
  {
    if IsCanonical(d) {
      assert CanonicalNodes(d.nodes) == d.nodes by {
        forall i | 0 <= i < |d.nodes| ensures CanonicalNode(d.nodes[i]) == d.nodes[i] {
          SortSortedIsIdentity(d.nodes[i].tags, TagLess);
        }
      }
      assert CanonicalWays(d.ways) == d.ways by {
        forall i | 0 <= i < |d.ways| ensures CanonicalWay(d.ways[i]) == d.ways[i] {
          SortSortedIsIdentity(d.ways[i].tags, TagLess);
          SortSortedIsIdentity(d.ways[i].nodeRefs, RefLess);
        }
      }
      assert CanonicalRelations(d.relations) == d.relations by {
        forall i | 0 <= i < |d.relations| ensures CanonicalRelation(d.relations[i]) == d.relations[i] {
          SortSortedIsIdentity(d.relations[i].tags, TagLess);
          SortSortedIsIdentity(d.relations[i].members, MemberLess);
        }
      }
      SortSortedIsIdentity(d.nodes, NodeLess);
      SortSortedIsIdentity(d.ways, WayLess);
      SortSortedIsIdentity(d.relations, RelationLess);
    }
  }

  /** Sorting twice is sorting once. */
  lemma SortDocumentIdempotent(d: Document)
    ensures SortDocument(SortDocument(d)) == SortDocument(d)
  {
    CanonicalIffSortIsIdentity(SortDocument(d));
  }

  /** Two nodes have the same canonical form exactly when they agree on every
      field and their tag lists are permutations of each other. */
  lemma CanonicalNodeSameIffPermutedTags(m: Node, n: Node)
    ensures CanonicalNode(m) == CanonicalNode(n) <==>
      m.(tags := n.tags) == n && multiset(m.tags) == multiset(n.tags)
  {
    if m.(tags := n.tags) == n && multiset(m.tags) == multiset(n.tags) {
      TagLessIsTotal();
      TotalIsDiscerning(m.tags, TagLess);
      SortPermutationInvariant(m.tags, n.tags, TagLess);
    }
  }

  /** Two ways have the same canonical form exactly when they agree on every
      field and their node references and tags are permutations. */
  lemma CanonicalWaySameIffPermuted(v: Way, w: Way)
    ensures CanonicalWay(v) == CanonicalWay(w) <==>
      && v.(nodeRefs := w.nodeRefs, tags := w.tags) == w
      && multiset(v.nodeRefs) == multiset(w.nodeRefs)
      && multiset(v.tags) == multiset(w.tags)
  {
    if && v.(nodeRefs := w.nodeRefs, tags := w.tags) == w
       && multiset(v.nodeRefs) == multiset(w.nodeRefs)
       && multiset(v.tags) == multiset(w.tags)
    {
      TagLessIsTotal();
      RefLessIsTotal();
      TotalIsDiscerning(v.tags, TagLess);
      TotalIsDiscerning(v.nodeRefs, RefLess);
      SortPermutationInvariant(v.tags, w.tags, TagLess);
      SortPermutationInvariant(v.nodeRefs, w.nodeRefs, RefLess);
    }
  }

  /** Two relations have the same canonical form exactly when they agree on
      every field and their members and tags are permutations. */
  lemma CanonicalRelationSameIffPermuted(q: Relation, r: Relation)
    ensures CanonicalRelation(q) == CanonicalRelation(r) <==>
      && q.(members := r.members, tags := r.tags) == r
      && multiset(q.members) == multiset(r.members)
      && multiset(q.tags) == multiset(r.tags)
  {
    if && q.(members := r.members, tags := r.tags) == r
       && multiset(q.members) == multiset(r.members)
       && multiset(q.tags) == multiset(r.tags)
    {
      TagLessIsTotal();
      MemberLessIsTotal();
      TotalIsDiscerning(q.tags, TagLess);
      TotalIsDiscerning(q.members, MemberLess);
      SortPermutationInvariant(q.tags, r.tags, TagLess);
      SortPermutationInvariant(q.members, r.members, MemberLess);
    }
  }

  /** The source's `Equals`: both documents are sorted in place (the sorted
      documents are returned alongside the verdict) and their object lists are
      compared for deep equality. Headers take no part in the comparison. */
  function Equals(a: Document, b: Document): (r: (bool, Document, Document))
    ensures r.1 == SortDocument(a) && r.2 == SortDocument(b)
    ensures r.0 <==>
      && r.1.nodes == r.2.nodes && r.1.ways == r.2.ways
      && r.1.relations == r.2.relations && r.1.changesets == r.2.changesets
  {
    var sa := SortDocument(a);
    var sb := SortDocument(b);
    var oa, ob := Objects(Some(sa)), Objects(Some(sb));
    FlattenedEqualIff(sa, oa.value, sb, ob.value);
    (oa == ob, sa, sb)
  }

  lemma EqualsReflexive(a: Document)
    ensures Equals(a, a).0
  {
  }

  lemma EqualsSymmetric(a: Document, b: Document)
    ensures Equals(a, b).0 == Equals(b, a).0
  {
  }

  lemma EqualsTransitive(a: Document, b: Document, c: Document)
    requires Equals(a, b).0 && Equals(b, c).0
    ensures Equals(a, c).0
  {
  }

  /** Replacing the header of either document never changes the verdict. */
  lemma EqualsIgnoresHeader(a: Document, a': Document, b: Document)
    requires a'.nodes == a.nodes && a'.ways == a.ways
    requires a'.relations == a.relations && a'.changesets == a.changesets
    ensures Equals(a', b).0 == Equals(a, b).0
  {
  }

  /** Every position of `s` holds a different id. */
  predicate DistinctNodeIds(s: seq<Node>) {
    forall i, j :: 0 <= i < j < |s| ==> s[i].id != s[j].id
  }

  predicate DistinctWayIds(s: seq<Way>) {
    forall i, j :: 0 <= i < j < |s| ==> s[i].id != s[j].id
  }

  predicate DistinctRelationIds(s: seq<Relation>) {
    forall i, j :: 0 <= i < j < |s| ==> s[i].id != s[j].id
  }

  /** The same entities, up to the order of each collection and of each
      entity's tags, node references and members. */
  predicate SameContent(a: Document, b: Document) {
    && multiset(CanonicalNodes(a.nodes)) == multiset(CanonicalNodes(b.nodes))
    && multiset(CanonicalWays(a.ways)) == multiset(CanonicalWays(b.ways))
    && multiset(CanonicalRelations(a.relations)) == multiset(CanonicalRelations(b.relations))
    && a.changesets == b.changesets
  }

  /** Documents that compare equal hold the same entities up to order. */
  lemma EqualsImpliesSameContent(a: Document, b: Document)
    requires Equals(a, b).0
    ensures SameContent(a, b)
  {
  }

  /** Conversely, documents with the same entities up to order compare equal,
      provided ids are not repeated within a collection (otherwise the relative
      order of same-id entities after `sort.Slice` is unspecified). */
  lemma SameContentImpliesEquals(a: Document, b: Document)
    requires SameContent(a, b)
    requires DistinctNodeIds(a.nodes) && DistinctWayIds(a.ways) && DistinctRelationIds(a.relations)
    ensures Equals(a, b).0
  {
    SameNodesSortSame(a.nodes, b.nodes);
    SameWaysSortSame(a.ways, b.ways);
    SameRelationsSortSame(a.relations, b.relations);
  }

  lemma SameNodesSortSame(a: seq<Node>, b: seq<Node>)
    requires multiset(CanonicalNodes(a)) == multiset(CanonicalNodes(b))
    requires DistinctNodeIds(a)
    ensures Sort(CanonicalNodes(a), NodeLess) == Sort(CanonicalNodes(b), NodeLess)
  {
    IdOrdersAreWeak();
    var ca := CanonicalNodes(a);
    assert Discerning(ca, NodeLess) by {
      forall i, j | 0 <= i < |ca| && 0 <= j < |ca| && ca[i] != ca[j]
        ensures NodeLess(ca[i], ca[j]) || NodeLess(ca[j], ca[i])
      {
        if i < j { assert a[i].id != a[j].id; }
        if j < i { assert a[j].id != a[i].id; }
      }
    }
    SortPermutationInvariant(ca, CanonicalNodes(b), NodeLess);
  }

  lemma SameWaysSortSame(a: seq<Way>, b: seq<Way>)
    requires multiset(CanonicalWays(a)) == multiset(CanonicalWays(b))
    requires DistinctWayIds(a)
    ensures Sort(CanonicalWays(a), WayLess) == Sort(CanonicalWays(b), WayLess)
  {
    IdOrdersAreWeak();
    var ca := CanonicalWays(a);
    assert Discerning(ca, WayLess) by {
      forall i, j | 0 <= i < |ca| && 0 <= j < |ca| && ca[i] != ca[j]
        ensures WayLess(ca[i], ca[j]) || WayLess(ca[j], ca[i])
      {
        if i < j { assert a[i].id != a[j].id; }
        if j < i { assert a[j].id != a[i].id; }
      }
    }
    SortPermutationInvariant(ca, CanonicalWays(b), WayLess);
  }

  lemma SameRelationsSortSame(a: seq<Relation>, b: seq<Relation>)
    requires multiset(CanonicalRelations(a)) == multiset(CanonicalRelations(b))
    requires DistinctRelationIds(a)
    ensures Sort(CanonicalRelations(a), RelationLess) == Sort(CanonicalRelations(b), RelationLess)
  {
    IdOrdersAreWeak();
    var ca := CanonicalRelations(a);
    assert Discerning(ca, RelationLess) by {
      forall i, j | 0 <= i < |ca| && 0 <= j < |ca| && ca[i] != ca[j]
        ensures RelationLess(ca[i], ca[j]) || RelationLess(ca[j], ca[i])
      {
        if i < j { assert a[i].id != a[j].id; }
        if j < i { assert a[j].id != a[i].id; }
      }
    }
    SortPermutationInvariant(ca, CanonicalRelations(b), RelationLess);
  }
}
