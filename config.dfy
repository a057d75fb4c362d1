/**
  `SrcGen::Config`: the configuration record built from a parsed type
  declaration. Reading and parsing the file happen before this model starts;
  the parsed document is its input.
 */
module SrcGenConfig {
  import opened Wrappers
  import opened Xml
  import opened Ordering

  /** Why building the configuration stops. */
  datatype ConfigError =
    | NoElement(path: Path)              // `elements[key]` is nil, so `.attributes` raises
    | Incomparable(path: Path, key: string)  // `sort_by` meets nil against a string
    | NameMissing                        // `d[:name]` is nil, so `.length` raises

  const TypePath: Path := ["type"]
  const ReleasePath: Path := ["type", "release"]
  const VersionPath: Path := ["type", "version"]
  const DimPath: Path := ["type", "dimensions", "dim"]
  const DimvecPath: Path := ["type", "dimvectors", "array"]
  const ScalarPath: Path := ["type", "scalardata", "scalar"]
  const ArrayPath: Path := ["type", "arraydata", "array"]

  // ---------------------------------------------------------------------
  // Scalar reads
  // ---------------------------------------------------------------------

  /** `extract_attribute(key, name)`: the attribute `name` of the first
      element at `path`, or None when that element has no such attribute;
      there must be an element at `path`. */
  function ExtractAttribute(doc: Document, path: Path, name: string): (r: Result<Option<string>, ConfigError>)
    ensures r.Failure? <==> Query(doc, path) == []
    ensures r.Failure? ==> r.error == NoElement(path)
    ensures r.Success? ==> (r.value.None? <==> name !in AttrNames(Query(doc, path)[0].attrs))
    ensures r.Success? && r.value.Some? ==> (name, r.value.value) in Query(doc, path)[0].attrs
  {
    var found := Query(doc, path);
    if found == [] then Failure(NoElement(path)) else Success(AttrValue(found[0].attrs, name))
  }

  /** On a well-formed first element, whatever value it gives `name` is what
      is read. */
  lemma ExtractAttributeFinds(doc: Document, path: Path, name: string, v: string)
    requires Query(doc, path) != []
    requires DistinctNames(Query(doc, path)[0].attrs)
    requires (name, v) in Query(doc, path)[0].attrs
    ensures ExtractAttribute(doc, path, name) == Success(Some(v))
  {
    var attrs := Query(doc, path)[0].attrs;
    var i :| 0 <= i < |attrs| && attrs[i] == (name, v);
    DistinctAttrValue(attrs, i);
  }

  /** `extract_name(key)`: the `name` attribute of the first element at `path`. */
  function ExtractName(doc: Document, path: Path): (r: Result<Option<string>, ConfigError>)
    ensures r.Failure? <==> Query(doc, path) == []
    ensures r.Failure? ==> r.error == NoElement(path)
    ensures r.Success? ==> (r.value.None? <==> "name" !in AttrNames(Query(doc, path)[0].attrs))
    ensures r.Success? && r.value.Some? ==> ("name", r.value.value) in Query(doc, path)[0].attrs
  {
    ExtractAttribute(doc, path, "name")
  }

  /** `extract_value(key)`: the `value` attribute of the first element at `path`. */
  function ExtractValue(doc: Document, path: Path): (r: Result<Option<string>, ConfigError>)
    ensures r.Failure? <==> Query(doc, path) == []
    ensures r.Failure? ==> r.error == NoElement(path)
    ensures r.Success? ==> (r.value.None? <==> "value" !in AttrNames(Query(doc, path)[0].attrs))
    ensures r.Success? && r.value.Some? ==> ("value", r.value.value) in Query(doc, path)[0].attrs
  {
    ExtractAttribute(doc, path, "value")
  }

  // ---------------------------------------------------------------------
  // Group extraction
  // ---------------------------------------------------------------------

  /** The attribute bags of every element at `path`, one per element, in
      document order. */
  function Group(doc: Document, path: Path): (r: seq<AttrBag>)
    ensures |r| == |Query(doc, path)|
    ensures forall i :: 0 <= i < |r| ==> r[i].Keys == AttrNames(Query(doc, path)[i].attrs)
    ensures forall i, k :: 0 <= i < |r| && k in r[i] ==> AttrValue(Query(doc, path)[i].attrs, k) == Some(r[i][k])
  {
    var found := Query(doc, path);
    seq(|found|, i requires 0 <= i < |found| => AttrMap(found[i].attrs))
  }

  /** On well-formed elements, bag i binds every attribute of element i to
      its value. */
  lemma GroupHoldsAttributes(doc: Document, path: Path, i: int, j: int)
    requires 0 <= i < |Query(doc, path)|
    requires DistinctNames(Query(doc, path)[i].attrs)
    requires 0 <= j < |Query(doc, path)[i].attrs|
    ensures var a := Query(doc, path)[i].attrs[j];
      a.0 in Group(doc, path)[i] && Group(doc, path)[i][a.0] == a.1
  {
    AttrMapHoldsEach(Query(doc, path)[i].attrs, j);
  }

  /** A path whose first step does not name the root gives an empty group,
      not an error. */
  lemma GroupWrongRoot(doc: Document, path: Path)
    requires doc.root.tag != path[0]
    ensures Group(doc, path) == []
  {
    QueryWrongRoot(doc, path);
  }

  /** `extract_group(key)`: for each element at `path`, a fresh map filled
      with `hash[k] = v` for each of its attributes, appended to the group. */
  method ExtractGroup(doc: Document, path: Path) returns (group: seq<AttrBag>)
    ensures group == Group(doc, path)
  {
    var found := Query(doc, path);
    group := [];
    var i := 0;
    while i < |found|
      invariant 0 <= i <= |found|
      invariant group == Group(doc, path)[..i]
    {
      var attrs := found[i].attrs;
      var hash: AttrBag := map[];
      var k := 0;
      while k < |attrs|
        invariant 0 <= k <= |attrs|
        invariant hash == AttrMap(attrs[..k])
      {
        assert attrs[..k + 1][..k] == attrs[..k];
        hash := hash[attrs[k].0 := attrs[k].1];
        k := k + 1;
      }
      assert attrs[..k] == attrs;
      group := group + [hash];
      i := i + 1;
    }
  }

  // ---------------------------------------------------------------------
  // Construction
  // ---------------------------------------------------------------------

  /** `"#{@name}_type"`: the name followed by `_type`; a nil name
      interpolates as the empty string. */
  function TypeName(name: Option<string>): (r: string)
    ensures |r| >= 5 && r[|r| - 5..] == "_type"
    ensures name.Some? ==> r[..|r| - 5] == name.value
    ensures name.None? ==> r == "_type"
  {
    (if name.Some? then name.value else "") + "_type"
  }

  /** The fields of a constructed configuration. */
  datatype ConfigState = ConfigState(
    xml: Document,
    name: Option<string>,
    typeName: string,
    release: Option<string>,
    version: Option<string>,
    dimensions: seq<AttrBag>,
    dimvectors: seq<AttrBag>,
    scalardata: seq<AttrBag>,
    arraydata: seq<AttrBag>)

  /** What `Config.new` produces from a parsed document, or the first error
      it raises, in the order the fields are set. */
  function Build(doc: Document): (r: Result<ConfigState, ConfigError>)
    ensures Query(doc, TypePath) == [] ==> r == Failure(NoElement(TypePath))
    ensures Query(doc, TypePath) != [] && Query(doc, ReleasePath) == [] ==> r == Failure(NoElement(ReleasePath))
    ensures Query(doc, TypePath) != [] && Query(doc, ReleasePath) != [] && Query(doc, VersionPath) == [] ==>
      r == Failure(NoElement(VersionPath))
    ensures Query(doc, TypePath) != [] && Query(doc, ReleasePath) != [] && Query(doc, VersionPath) != [] ==>
      (Mixed(Group(doc, DimPath), "index") ==> r == Failure(Incomparable(DimPath, "index"))) &&
      (!Mixed(Group(doc, DimPath), "index") && Mixed(Group(doc, DimvecPath), "dimindex") ==>
        r == Failure(Incomparable(DimvecPath, "dimindex")))
    ensures r.Success? <==>
      Query(doc, TypePath) != [] && Query(doc, ReleasePath) != [] && Query(doc, VersionPath) != [] &&
      !Mixed(Group(doc, DimPath), "index") && !Mixed(Group(doc, DimvecPath), "dimindex")
  {
    var name := ExtractName(doc, TypePath);
    var release := ExtractValue(doc, ReleasePath);
    var version := ExtractValue(doc, VersionPath);
    if name.Failure? then Failure(name.error)
    else if release.Failure? then Failure(release.error)
    else if version.Failure? then Failure(version.error)
    else
      var dims := SortBy(Group(doc, DimPath), "index");
      var vecs := SortBy(Group(doc, DimvecPath), "dimindex");
      if dims.None? then Failure(Incomparable(DimPath, "index"))
      else if vecs.None? then Failure(Incomparable(DimvecPath, "dimindex"))
      else
        Success(ConfigState(doc, name.value, TypeName(name.value), release.value, version.value,
                            dims.value, vecs.value, Group(doc, ScalarPath), Group(doc, ArrayPath)))
  }

  /** The record a successful build produces: the scalar reads, the
      `_type` suffix, the two sorted permutations and the two groups kept as
      they are. */
  lemma BuildRecord(doc: Document)
    requires Build(doc).Success?
    ensures var c := Build(doc).value;
      c.xml == doc &&
      c.name == ExtractName(doc, TypePath).value &&
      c.release == ExtractValue(doc, ReleasePath).value &&
      c.version == ExtractValue(doc, VersionPath).value
    ensures var c := Build(doc).value;
      |c.typeName| >= 5 && c.typeName[|c.typeName| - 5..] == "_type" &&
      (c.name.Some? ==> c.typeName[..|c.typeName| - 5] == c.name.value)
    ensures var c := Build(doc).value;
      c.typeName == TypeName(c.name)
    ensures var c := Build(doc).value;
      SortedBy(c.dimensions, "index") && multiset(c.dimensions) == multiset(Group(doc, DimPath))
    ensures var c := Build(doc).value;
      SortedBy(c.dimvectors, "dimindex") && multiset(c.dimvectors) == multiset(Group(doc, DimvecPath))
    ensures var c := Build(doc).value;
      c.scalardata == Group(doc, ScalarPath) && c.arraydata == Group(doc, ArrayPath)
  {
  }

  /** On a successful build whose first dimension carries an index, every
      dimension carries one and they ascend by its string; the same for the
      dimension vectors and `dimindex`. */
  lemma BuildSortedByIndexText(doc: Document)
    requires Build(doc).Success?
    ensures var c := Build(doc).value;
      (|c.dimensions| > 0 && "index" in c.dimensions[0] ==>
        (forall i :: 0 <= i < |c.dimensions| ==> "index" in c.dimensions[i]) &&
        (forall i, j :: 0 <= i < j < |c.dimensions| ==> LexLe(c.dimensions[i]["index"], c.dimensions[j]["index"]))) &&
      (|c.dimvectors| > 0 && "dimindex" in c.dimvectors[0] ==>
        (forall i :: 0 <= i < |c.dimvectors| ==> "dimindex" in c.dimvectors[i]) &&
        (forall i, j :: 0 <= i < j < |c.dimvectors| ==> LexLe(c.dimvectors[i]["dimindex"], c.dimvectors[j]["dimindex"])))
  {
    var c := Build(doc).value;
    if |c.dimensions| > 0 && "index" in c.dimensions[0] {
      SortedResultAscending(Group(doc, DimPath), "index");
    }
    if |c.dimvectors| > 0 && "dimindex" in c.dimvectors[0] {
      SortedResultAscending(Group(doc, DimvecPath), "dimindex");
    }
  }

  // ---------------------------------------------------------------------
  // Derived accessors
  // ---------------------------------------------------------------------

  /** `collect {|d| d[:name].length}.max`: None for an empty collection, an
      error when some bag has no name, otherwise the longest name's length. */
  function MaxNameLength(ds: seq<AttrBag>): (r: Result<Option<nat>, ConfigError>)
    ensures r.Failure? <==> exists i :: 0 <= i < |ds| && "name" !in ds[i]
    ensures r.Failure? ==> r.error == NameMissing
    ensures r == Success(None) <==> ds == []
    ensures r.Success? && r.value.Some? ==>
      (forall i :: 0 <= i < |ds| ==> |ds[i]["name"]| <= r.value.value) &&
      (exists i :: 0 <= i < |ds| && |ds[i]["name"]| == r.value.value)
  {
    if ds == [] then Success(None)
    else if "name" !in ds[0] then Failure(NameMissing)
    else
      var n := |ds[0]["name"]|;
      var rest := MaxNameLength(ds[1..]);
      assert forall i :: 0 < i < |ds| ==> ds[i] == ds[1..][i - 1];
      match rest
      case Failure(e) => Failure(e)
      case Success(None) => Success(Some(n))
      case Success(Some(m)) => Success(Some(if n < m then m else n))
  }

  /** `collect {|d| d[:name]}`: the `name` of each bag, position by position,
      nil where a bag has none. */
  function Names(ds: seq<AttrBag>): (r: seq<Option<string>>)
    ensures |r| == |ds|
    ensures forall i :: 0 <= i < |r| ==> (r[i].Some? <==> "name" in ds[i])
    ensures forall i :: 0 <= i < |r| && r[i].Some? ==> r[i].value == ds[i]["name"]
  {
    seq(|ds|, i requires 0 <= i < |ds| => KeyOf(ds[i], "name"))
  }

  /** `SrcGen::Config`: the record the generator reads. */
  class Config {
    const xml: Document
    const name: Option<string>
    const typeName: string
    const release: Option<string>
    const version: Option<string>
    const dimensions: seq<AttrBag>
    const dimvectors: seq<AttrBag>
    const scalardata: seq<AttrBag>
    const arraydata: seq<AttrBag>

    /** The fields as one value. */
    function State(): ConfigState
    {
      ConfigState(xml, name, typeName, release, version, dimensions, dimvectors, scalardata, arraydata)
    }

    /** The fields are what construction makes of the document in `xml`. */
    predicate Valid()
    {
      Build(xml) == Success(State())
    }

    /** Sets the fields one by one from the values a successful build
        extracted from `doc`. */
    constructor (doc: Document, name: Option<string>, typeName: string, release: Option<string>,
                 version: Option<string>, dimensions: seq<AttrBag>, dimvectors: seq<AttrBag>,
                 scalardata: seq<AttrBag>, arraydata: seq<AttrBag>)
      requires Build(doc) == Success(ConfigState(doc, name, typeName, release, version,
                                                 dimensions, dimvectors, scalardata, arraydata))
      ensures State() == ConfigState(doc, name, typeName, release, version,
                                     dimensions, dimvectors, scalardata, arraydata)
      ensures Valid()
    {
      this.xml := doc;
      this.name := name;
      this.typeName := typeName;
      this.release := release;
      this.version := version;
      this.dimensions := dimensions;
      this.dimvectors := dimvectors;
      this.scalardata := scalardata;
      this.arraydata := arraydata;
    }

    /** What every constructed configuration promises its readers. */
    lemma ValidPromises()
      requires Valid()
      ensures |typeName| >= 5 && typeName[|typeName| - 5..] == "_type"
      ensures name.Some? ==> typeName[..|typeName| - 5] == name.value
      ensures typeName == TypeName(name)
      ensures SortedBy(dimensions, "index") && multiset(dimensions) == multiset(Group(xml, DimPath))
      ensures SortedBy(dimvectors, "dimindex") && multiset(dimvectors) == multiset(Group(xml, DimvecPath))
      ensures scalardata == Group(xml, ScalarPath) && arraydata == Group(xml, ArrayPath)
    {
    }

    /** `Config.new` on a parsed document: extracts the fields in the order
      `initialize` does and stops at the first error. */
    static method Create(doc: Document) returns (r: Result<Config, ConfigError>)
      ensures r.Success? <==> Build(doc).Success?
      ensures r.Failure? ==> Build(doc) == Failure(r.error)
      ensures r.Success? ==> fresh(r.value) && r.value.State() == Build(doc).value && r.value.Valid()
    {
      var nameR := ExtractName(doc, TypePath);
      if nameR.Failure? { return Failure(nameR.error); }
      var name := nameR.value;
      var typeName := TypeName(name);
      var releaseR := ExtractValue(doc, ReleasePath);
      if releaseR.Failure? { return Failure(releaseR.error); }
      var versionR := ExtractValue(doc, VersionPath);
      if versionR.Failure? { return Failure(versionR.error); }
      var dimGroup := ExtractGroup(doc, DimPath);
      var dims := SortBy(dimGroup, "index");
      if dims.None? { return Failure(Incomparable(DimPath, "index")); }
      var vecGroup := ExtractGroup(doc, DimvecPath);
      var vecs := SortBy(vecGroup, "dimindex");
      if vecs.None? { return Failure(Incomparable(DimvecPath, "dimindex")); }
      var scalars := ExtractGroup(doc, ScalarPath);
      var arrays := ExtractGroup(doc, ArrayPath);
      var c := new Config(doc, name, typeName, releaseR.value, versionR.value,
                          dims.value, vecs.value, scalars, arrays);
      return Success(c);
    }

    /** `dim_names`: the `name` of each dimension, position by position,
        nil where a dimension has none. */
    function DimNames(): (r: seq<Option<string>>)
      ensures |r| == |dimensions|
      ensures forall i :: 0 <= i < |r| ==> (r[i].Some? <==> "name" in dimensions[i])
      ensures forall i :: 0 <= i < |r| && r[i].Some? ==> r[i].value == dimensions[i]["name"]
    {
      Names(dimensions)
    }

    /** `max_dim_name_length`. */
    function MaxDimNameLength(): (r: Result<Option<nat>, ConfigError>)
      ensures r.Failure? <==> exists i :: 0 <= i < |dimensions| && "name" !in dimensions[i]
      ensures r.Failure? ==> r.error == NameMissing
      ensures r == Success(None) <==> dimensions == []
      ensures r.Success? && r.value.Some? ==>
        (forall i :: 0 <= i < |dimensions| ==> |dimensions[i]["name"]| <= r.value.value) &&
        (exists i :: 0 <= i < |dimensions| && |dimensions[i]["name"]| == r.value.value)
    {
      MaxNameLength(dimensions)
    }

    /** `max_dimvec_name_length`. */
    function MaxDimvecNameLength(): (r: Result<Option<nat>, ConfigError>)
      ensures r.Failure? <==> exists i :: 0 <= i < |dimvectors| && "name" !in dimvectors[i]
      ensures r.Failure? ==> r.error == NameMissing
      ensures r == Success(None) <==> dimvectors == []
      ensures r.Success? && r.value.Some? ==>
        (forall i :: 0 <= i < |dimvectors| ==> |dimvectors[i]["name"]| <= r.value.value) &&
        (exists i :: 0 <= i < |dimvectors| && |dimvectors[i]["name"]| == r.value.value)
    {
      MaxNameLength(dimvectors)
    }
  }
}
