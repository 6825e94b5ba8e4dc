/** What the OSM XML encoding of a document consists of: the `osm` root element,
    which of its five attributes appear and in which order, and the order of the
    child elements. The byte-level encoding is not modelled. */
module OsmXml {
  import opened Wrappers
  import opened Osm

  /** The five root attributes, in emission order. */
  datatype AttrName = VersionAttr | GeneratorAttr | CopyrightAttr | AttributionAttr | LicenseAttr {
    /** The attribute's name on the wire. */
    function Text(): string {
      match this
      case VersionAttr => "version"
      case GeneratorAttr => "generator"
      case CopyrightAttr => "copyright"
      case AttributionAttr => "attribution"
      case LicenseAttr => "license"
    }

    function Rank(): nat {
      match this
      case VersionAttr => 0
      case GeneratorAttr => 1
      case CopyrightAttr => 2
      case AttributionAttr => 3
      case LicenseAttr => 4
    }
  }

  datatype AttrValue = Number(num: real) | Text(text: string)

  datatype Attribute = Attribute(name: AttrName, value: AttrValue)

  /** The root element: its name, attributes and child elements, in document order. */
  datatype Element = Element(name: string, attrs: seq<Attribute>, children: seq<Object>)

  /** The value of the first attribute called `name`, if any. */
  function Lookup(attrs: seq<Attribute>, name: AttrName): Option<AttrValue> {
    if |attrs| == 0 then None
    else if attrs[0].name == name then Some(attrs[0].value)
    else Lookup(attrs[1..], name)
  }

  /** Attribute names strictly increase in rank. */
  predicate InEmissionOrder(attrs: seq<Attribute>) {
    forall i, j :: 0 <= i < j < |attrs| ==> attrs[i].name.Rank() < attrs[j].name.Rank()
  }

  /** Every attribute ranks above `k`. */
  predicate RanksAbove(attrs: seq<Attribute>, k: int) {
    forall i :: 0 <= i < |attrs| ==> attrs[i].name.Rank() > k
  }

  /** `rest`, preceded by the attribute `name` when `present`. */
  function Emit(name: AttrName, present: bool, value: AttrValue, rest: seq<Attribute>): (r: seq<Attribute>)
    ensures RanksAbove(rest, name.Rank()) && InEmissionOrder(rest)
      ==> InEmissionOrder(r) && RanksAbove(r, name.Rank() - 1)
  {
    if present then [Attribute(name, value)] + rest else rest
  }

  lemma EmitLookup(name: AttrName, present: bool, value: AttrValue, rest: seq<Attribute>, m: AttrName)
    ensures Lookup(Emit(name, present, value, rest), m)
      == if m == name && present then Some(value) else Lookup(rest, m)
  {
    if present {
      assert ([Attribute(name, value)] + rest)[1..] == rest;
    }
  }

  /** The root attributes `MarshalXML` emits: version, generator, copyright,
      attribution, license, each left out when zero or empty. */
  function RootAttributes(d: Document): (r: seq<Attribute>)
    ensures InEmissionOrder(r)
    ensures Lookup(r, VersionAttr) == (if d.version != 0.0 then Some(Number(d.version)) else None)
    ensures Lookup(r, GeneratorAttr) == (if d.generator != "" then Some(Text(d.generator)) else None)
    ensures Lookup(r, CopyrightAttr) == (if d.copyright != "" then Some(Text(d.copyright)) else None)
    ensures Lookup(r, AttributionAttr) == (if d.attribution != "" then Some(Text(d.attribution)) else None)
    ensures Lookup(r, LicenseAttr) == (if d.license != "" then Some(Text(d.license)) else None)
  {
    var l := Emit(LicenseAttr, d.license != "", Text(d.license), []);
    var a := Emit(AttributionAttr, d.attribution != "", Text(d.attribution), l);
    var c := Emit(CopyrightAttr, d.copyright != "", Text(d.copyright), a);
    var g := Emit(GeneratorAttr, d.generator != "", Text(d.generator), c);
    var r := Emit(VersionAttr, d.version != 0.0, Number(d.version), g);
    assert RanksAbove(l, 3) && InEmissionOrder(l);
    assert RanksAbove(a, 2) && InEmissionOrder(a);
    assert RanksAbove(c, 1) && InEmissionOrder(c);
    assert RanksAbove(g, 0) && InEmissionOrder(g);
    RootLookups(d, l, a, c, g, r);
    r
  }

  lemma RootLookups(d: Document, l: seq<Attribute>, a: seq<Attribute>, c: seq<Attribute>,
                    g: seq<Attribute>, r: seq<Attribute>)
    requires l == Emit(LicenseAttr, d.license != "", Text(d.license), [])
    requires a == Emit(AttributionAttr, d.attribution != "", Text(d.attribution), l)
    requires c == Emit(CopyrightAttr, d.copyright != "", Text(d.copyright), a)
    requires g == Emit(GeneratorAttr, d.generator != "", Text(d.generator), c)
    requires r == Emit(VersionAttr, d.version != 0.0, Number(d.version), g)
    ensures Lookup(r, VersionAttr) == (if d.version != 0.0 then Some(Number(d.version)) else None)
    ensures Lookup(r, GeneratorAttr) == (if d.generator != "" then Some(Text(d.generator)) else None)
    ensures Lookup(r, CopyrightAttr) == (if d.copyright != "" then Some(Text(d.copyright)) else None)
    ensures Lookup(r, AttributionAttr) == (if d.attribution != "" then Some(Text(d.attribution)) else None)
    ensures Lookup(r, LicenseAttr) == (if d.license != "" then Some(Text(d.license)) else None)
  {
    LookupThrough(d, l, a, c, g, r, VersionAttr);
    LookupThrough(d, l, a, c, g, r, GeneratorAttr);
    LookupThrough(d, l, a, c, g, r, CopyrightAttr);
    LookupThrough(d, l, a, c, g, r, AttributionAttr);
    LookupThrough(d, l, a, c, g, r, LicenseAttr);
  }

  lemma LookupThrough(d: Document, l: seq<Attribute>, a: seq<Attribute>, c: seq<Attribute>,
                      g: seq<Attribute>, r: seq<Attribute>, m: AttrName)
    requires l == Emit(LicenseAttr, d.license != "", Text(d.license), [])
    requires a == Emit(AttributionAttr, d.attribution != "", Text(d.attribution), l)
    requires c == Emit(CopyrightAttr, d.copyright != "", Text(d.copyright), a)
    requires g == Emit(GeneratorAttr, d.generator != "", Text(d.generator), c)
    requires r == Emit(VersionAttr, d.version != 0.0, Number(d.version), g)
    ensures Lookup(r, m) ==
      match m
      case VersionAttr => if d.version != 0.0 then Some(Number(d.version)) else None
      case GeneratorAttr => if d.generator != "" then Some(Text(d.generator)) else None
      case CopyrightAttr => if d.copyright != "" then Some(Text(d.copyright)) else None
      case AttributionAttr => if d.attribution != "" then Some(Text(d.attribution)) else None
      case LicenseAttr => if d.license != "" then Some(Text(d.license)) else None
  {
    EmitLookup(LicenseAttr, d.license != "", Text(d.license), [], m);
    EmitLookup(AttributionAttr, d.attribution != "", Text(d.attribution), l, m);
    EmitLookup(CopyrightAttr, d.copyright != "", Text(d.copyright), a, m);
    EmitLookup(GeneratorAttr, d.generator != "", Text(d.generator), c, m);
    EmitLookup(VersionAttr, d.version != 0.0, Number(d.version), g, m);
  }

  /** The child elements `marshalInnerXML` writes: nothing for a nil document,
      otherwise nodes, then ways, then relations, then changesets. */
  function InnerElements(o: Option<Document>): (r: seq<Object>)
    ensures o.None? ==> r == []
    ensures o.Some? ==> Flattened(o.value, r)
  {
    match o
    case None => []
    case Some(d) => Objects(o).value
  }

  /** `MarshalXML`: an `osm` element with the root attributes and the children. */
  function MarshalXml(d: Document): (r: Element)
    ensures r.name == "osm"
    ensures r.attrs == RootAttributes(d)
    ensures Flattened(d, r.children)
  {
    Element("osm", RootAttributes(d), InnerElements(Some(d)))
  }

  /** A fresh response carries all five root attributes, in order, with the
      package constants, and no children. */
  lemma NewMarshalsFullHeader()
    ensures MarshalXml(New()).attrs == [
      Attribute(VersionAttr, Number(Version)),
      Attribute(GeneratorAttr, Text(Generator)),
      Attribute(CopyrightAttr, Text(Copyright)),
      Attribute(AttributionAttr, Text(Attribution)),
      Attribute(LicenseAttr, Text(License))]
    ensures MarshalXml(New()).children == []
  {
  }

  /** The wire order of children is the order in which `Equals` compares objects. */
  lemma WireOrderIsObjectOrder(d: Document)
    ensures MarshalXml(d).children == Objects(Some(d)).value
  {
    FlattenedEqualIff(d, MarshalXml(d).children, d, Objects(Some(d)).value);
  }
}
