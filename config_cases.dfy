/** Worked examples on small documents. */
module SrcGenConfigCases {
  import opened Wrappers
  import opened Xml
  import opened Ordering
  import opened SrcGenConfig

  function Dim(name: string, index: string): Element
  {
    Element("dim", [("name", name), ("index", index)], [])
  }

  /** A declaration of type `name` with the given `dim` elements. */
  function TypeDoc(name: string, dims: seq<Element>): Document
  {
    Document(Element("type", [("name", name)], [
      Element("release", [("value", "2")], []),
      Element("version", [("value", "1")], []),
      Element("dimensions", [], dims)]))
  }

  /** The scalar reads and the four groups of a `TypeDoc`, spelled out. */
  lemma TypeDocQueries(n: string, dims: seq<Element>)
    requires forall e :: e in dims ==> e.tag == "dim"
    ensures Query(TypeDoc(n, dims), TypePath) == [TypeDoc(n, dims).root]
    ensures Query(TypeDoc(n, dims), ReleasePath) == [TypeDoc(n, dims).root.children[0]]
    ensures Query(TypeDoc(n, dims), VersionPath) == [TypeDoc(n, dims).root.children[1]]
    ensures Query(TypeDoc(n, dims), DimPath) == dims
    ensures Query(TypeDoc(n, dims), DimvecPath) == []
    ensures Query(TypeDoc(n, dims), ScalarPath) == []
    ensures Query(TypeDoc(n, dims), ArrayPath) == []
  {
    assert Tagged([TypeDoc(n, dims).root], "type") == [TypeDoc(n, dims).root];
    QueryRelease(n, dims);
    QueryVersion(n, dims);
    QueryDims(n, dims);
    QueryEmpty(n, dims, "dimvectors", "array", DimvecPath);
    QueryEmpty(n, dims, "scalardata", "scalar", ScalarPath);
    QueryEmpty(n, dims, "arraydata", "array", ArrayPath);
  }

  lemma QueryRelease(n: string, dims: seq<Element>)
    ensures Query(TypeDoc(n, dims), ReleasePath) == [TypeDoc(n, dims).root.children[0]]
  {
    var c := TypeDoc(n, dims).root.children;
    TaggedThree(c[0], c[1], c[2], "release");
    TypeDocChild(n, dims, "release", []);
    assert ReleasePath == ["type", "release"] + [];
  }

  lemma QueryVersion(n: string, dims: seq<Element>)
    ensures Query(TypeDoc(n, dims), VersionPath) == [TypeDoc(n, dims).root.children[1]]
  {
    var c := TypeDoc(n, dims).root.children;
    TaggedThree(c[0], c[1], c[2], "version");
    TypeDocChild(n, dims, "version", []);
    assert VersionPath == ["type", "version"] + [];
  }

  lemma QueryDims(n: string, dims: seq<Element>)
    requires forall e :: e in dims ==> e.tag == "dim"
    ensures Query(TypeDoc(n, dims), DimPath) == dims
  {
    var doc := TypeDoc(n, dims);
    var c := doc.root.children;
    assert c == [c[0], c[1], c[2]];
    TaggedThree(c[0], c[1], c[2], "dimensions");
    QueryThrough(doc, c[2], dims);
  }

  /** `type/dimensions/dim` on a `type` root with one `dimensions` child. */
  lemma QueryThrough(doc: Document, d: Element, dims: seq<Element>)
    requires doc.root.tag == "type"
    requires Tagged(doc.root.children, "dimensions") == [d]
    requires d.children == dims
    requires forall e :: e in dims ==> e.tag == "dim"
    ensures Query(doc, DimPath) == dims
  {
    QueryUnder(doc, "dimensions", ["dim"], [d]);
    assert DimPath == ["type", "dimensions"] + ["dim"];
    DescendOne(d, "dim");
    TaggedAll(dims, "dim");
  }

  /** One child step from a single element. */
  lemma DescendOne(e: Element, t: string)
    ensures Descend([e], [t]) == Tagged(e.children, t)
  {
    ChildStepOne(e, t);
    assert [t][1..] == [];
  }

  lemma QueryEmpty(n: string, dims: seq<Element>, t: string, u: string, p: Path)
    requires t != "release" && t != "version" && t != "dimensions"
    requires p == ["type", t, u]
    ensures Query(TypeDoc(n, dims), p) == []
  {
    var c := TypeDoc(n, dims).root.children;
    TaggedThree(c[0], c[1], c[2], t);
    TypeDocChild(n, dims, t, [u]);
    assert p == ["type", t] + [u];
    DescendNothing([u]);
  }

  /** A path `type/t/rest` on a `TypeDoc`. */
  lemma TypeDocChild(n: string, dims: seq<Element>, t: string, rest: seq<string>)
    ensures var root := TypeDoc(n, dims).root;
      Query(TypeDoc(n, dims), ["type", t] + rest) ==
      Descend(Tagged([root.children[0], root.children[1], root.children[2]], t), rest)
  {
    var doc := TypeDoc(n, dims);
    var root := doc.root;
    var rel, ver, dl := root.children[0], root.children[1], root.children[2];
    assert root.children == [rel, ver, dl];
    QueryUnder(doc, t, rest, Tagged([rel, ver, dl], t));
    TaggedThree(rel, ver, dl, t);
  }

  /** A path `type/t/rest` on a document whose root is `type`. */
  lemma QueryUnder(doc: Document, t: string, rest: seq<string>, below: seq<Element>)
    requires doc.root.tag == "type"
    requires Tagged(doc.root.children, t) == below
    ensures Query(doc, ["type", t] + rest) == Descend(below, rest)
  {
    var p: Path := ["type", t] + rest;
    assert p[0] == "type" && p[1..] == [t] + rest;
    assert Tagged([doc.root], "type") == [doc.root];
    ChildStepOne(doc.root, t);
    assert ([t] + rest)[1..] == rest;
  }

  lemma ChildStepOne(e: Element, t: string)
    ensures ChildStep([e], t) == Tagged(e.children, t)
  {
    assert [e][1..] == [];
  }

  lemma TaggedThree(a: Element, b: Element, c: Element, t: string)
    ensures Tagged([a, b, c], t) ==
      (if a.tag == t then [a] else []) + (if b.tag == t then [b] else []) + (if c.tag == t then [c] else [])
  {
    assert [a, b, c][1..] == [b, c];
    assert [b, c][1..] == [c];
    assert [c][1..] == [];
    assert Tagged([c], t) == (if c.tag == t then [c] else []);
    assert Tagged([b, c], t) == (if b.tag == t then [b] else []) + Tagged([c], t);
    assert Tagged([a, b, c], t) == (if a.tag == t then [a] else []) + Tagged([b, c], t);
  }

  lemma {:induction false} TaggedAll(s: seq<Element>, t: string)
    requires forall e :: e in s ==> e.tag == t
    ensures Tagged(s, t) == s
  {
    if s != [] {
      TaggedAll(s[1..], t);
      assert s == [s[0]] + s[1..];
    }
  }

  /** The bag of a `Dim`. */
  lemma DimBag(name: string, index: string)
    ensures AttrMap(Dim(name, index).attrs) == map["name" := name, "index" := index]
  {
    var attrs := Dim(name, index).attrs;
    assert attrs[..1] == [("name", name)];
    assert attrs[..1][..0] == [];
  }

  /** Two bags out of order by `key` are swapped. */
  lemma SortTwo(p: AttrBag, q: AttrBag, key: string)
    requires key in p && key in q && !LexLe(p[key], q[key])
    ensures InsertionSort([p, q], key) == [q, p]
  {
    assert [p, q][1..] == [q];
    assert [q][1..] == [];
    assert InsertionSort([q], key) == Insert(q, [], key) == [q];
    assert !KeyLe(p, q, key);
    assert Insert(p, [q], key) == [q] + Insert(p, [], key);
  }

  /** The bags of the `dim` elements. */
  function Bags(dims: seq<Element>): seq<AttrBag>
  {
    seq(|dims|, i requires 0 <= i < |dims| => AttrMap(dims[i].attrs))
  }

  /** What `Build` makes of a document from what it reads. */
  lemma BuildFrom(doc: Document, n: string, g: seq<AttrBag>)
    requires ExtractName(doc, TypePath) == Success(Some(n))
    requires ExtractValue(doc, ReleasePath) == Success(Some("2"))
    requires ExtractValue(doc, VersionPath) == Success(Some("1"))
    requires Group(doc, DimPath) == g && !Mixed(g, "index")
    requires Group(doc, DimvecPath) == [] && Group(doc, ScalarPath) == [] && Group(doc, ArrayPath) == []
    ensures Build(doc) ==
      Success(ConfigState(doc, Some(n), n + "_type", Some("2"), Some("1"), InsertionSort(g, "index"), [], [], []))
  {
    assert !Mixed([], "dimindex");
  }

  /** What `Build` makes of a `TypeDoc` whose dimension sort succeeds. */
  lemma BuildTypeDoc(n: string, dims: seq<Element>)
    requires forall e :: e in dims ==> e.tag == "dim"
    requires !Mixed(Bags(dims), "index")
    ensures Build(TypeDoc(n, dims)) ==
      Success(ConfigState(TypeDoc(n, dims), Some(n), n + "_type", Some("2"), Some("1"),
                          InsertionSort(Bags(dims), "index"), [], [], []))
  {
    BuildTypeDocPrefix(n, dims);
    BuildFrom(TypeDoc(n, dims), n, Bags(dims));
  }

  /** The same, when the dimension sort fails. */
  lemma BuildTypeDocMixed(n: string, dims: seq<Element>)
    requires forall e :: e in dims ==> e.tag == "dim"
    requires Mixed(Bags(dims), "index")
    ensures Build(TypeDoc(n, dims)) == Failure(Incomparable(DimPath, "index"))
  {
    BuildTypeDocPrefix(n, dims);
  }

  /** Everything `Build` reads from a `TypeDoc` before it sorts. */
  lemma BuildTypeDocPrefix(n: string, dims: seq<Element>)
    requires forall e :: e in dims ==> e.tag == "dim"
    ensures ExtractName(TypeDoc(n, dims), TypePath) == Success(Some(n))
    ensures ExtractValue(TypeDoc(n, dims), ReleasePath) == Success(Some("2"))
    ensures ExtractValue(TypeDoc(n, dims), VersionPath) == Success(Some("1"))
    ensures Group(TypeDoc(n, dims), DimPath) == Bags(dims)
    ensures Group(TypeDoc(n, dims), DimvecPath) == []
    ensures Group(TypeDoc(n, dims), ScalarPath) == []
    ensures Group(TypeDoc(n, dims), ArrayPath) == []
  {
    TypeDocQueries(n, dims);
    assert AttrValue([("name", n)], "name") == Some(n);
    assert AttrValue([("value", "2")], "value") == Some("2");
    assert AttrValue([("value", "1")], "value") == Some("1");
  }

  /** Two dimensions whose indices are out of order come out swapped. */
  lemma BuildTwoSwapped(n: string, x: Element, y: Element)
    requires x.tag == "dim" && y.tag == "dim"
    requires "index" in AttrMap(x.attrs) && "index" in AttrMap(y.attrs)
    requires !LexLe(AttrMap(x.attrs)["index"], AttrMap(y.attrs)["index"])
    ensures Build(TypeDoc(n, [x, y])).Success?
    ensures var c := Build(TypeDoc(n, [x, y])).value;
      c.typeName == n + "_type" && c.dimensions == [AttrMap(y.attrs), AttrMap(x.attrs)]
  {
    BagsTwo(x, y);
    var g := Bags([x, y]);
    NotMixedTwo(g[0], g[1], "index");
    SortTwo(g[0], g[1], "index");
    assert forall e :: e in [x, y] ==> e.tag == "dim";
    BuildTypeDoc(n, [x, y]);
  }

  lemma BagsTwo(x: Element, y: Element)
    ensures Bags([x, y]) == [AttrMap(x.attrs), AttrMap(y.attrs)]
  {
  }

  /** Two bags that both carry `key` never make the sort raise. */
  lemma NotMixedTwo(p: AttrBag, q: AttrBag, key: string)
    requires key in p && key in q
    ensures !Mixed([p, q], key)
  {
  }

  /** Dimensions `x` at index 2 and `y` at index 0 come out as `y`, `x`,
      whatever the type is called. */
  lemma DimensionsSortedByIndex(n: string, x: Element, y: Element)
    requires x == Dim("x", "2") && y == Dim("y", "0")
    ensures Build(TypeDoc(n, [x, y])).Success?
    ensures var c := Build(TypeDoc(n, [x, y])).value;
      c.typeName == n + "_type" &&
      c.dimensions == [map["name" := "y", "index" := "0"], map["name" := "x", "index" := "2"]]
    ensures Names(Build(TypeDoc(n, [x, y])).value.dimensions) == [Some("y"), Some("x")]
  {
    DimBag("x", "2");
    DimBag("y", "0");
    BuildTwoSwapped(n, x, y);
    NamesTwo(map["name" := "y", "index" := "0"], map["name" := "x", "index" := "2"]);
  }

  lemma NamesTwo(p: AttrBag, q: AttrBag)
    ensures Names([p, q]) == [KeyOf(p, "name"), KeyOf(q, "name")]
  {
  }

  /** Index "10" sorts before index "2": the comparison is on text. */
  lemma IndexComparedAsText(n: string, a: Element, b: Element)
    requires a == Dim("a", "2") && b == Dim("b", "10")
    ensures Build(TypeDoc(n, [a, b])).Success?
    ensures var c := Build(TypeDoc(n, [a, b])).value;
      c.dimensions == [map["name" := "b", "index" := "10"], map["name" := "a", "index" := "2"]]
  {
    DimBag("a", "2");
    DimBag("b", "10");
    TenSortsBeforeTwo();
    BuildTwoSwapped(n, a, b);
  }

  /** With no dimensions the longest-name accessor yields None, not an error. */
  lemma NoDimensionsNoMaximum(n: string)
    ensures Build(TypeDoc(n, [])).Success?
    ensures Build(TypeDoc(n, [])).value.dimensions == []
    ensures MaxNameLength(Build(TypeDoc(n, [])).value.dimensions) == Success(None)
  {
    assert !Mixed(Bags([]), "index");
    BuildTypeDoc(n, []);
  }

  /** One dimension without an index beside one with an index makes the sort
      raise. */
  lemma MissingIndexFails(n: string, x: Element, y: Element)
    requires x == Element("dim", [("name", "x")], []) && y == Dim("y", "0")
    ensures Build(TypeDoc(n, [x, y])) == Failure(Incomparable(DimPath, "index"))
  {
    var dims := [x, y];
    var g := Bags(dims);
    DimBag("y", "0");
    assert g[0] == map["name" := "x"];
    assert g[1] == map["name" := "y", "index" := "0"];
    assert "index" in g[1] && "index" !in g[0];
    BuildTypeDocMixed(n, dims);
  }
}
