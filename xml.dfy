/**
  The parsed declaration tree and the two queries `config.rb` makes of it:
  child-step path lookup (`elements[key]`, `elements.each(key)`) and reading
  an element's attributes (`attributes[name]`, `attributes.each`).
 */
module Xml {
  import opened Wrappers

  /** One attribute: its name and its value. */
  type Attribute = (string, string)

  /** An element of the parsed document: its tag, its attributes in
      document order, and its child elements in document order. */
  datatype Element = Element(tag: string, attrs: seq<Attribute>, children: seq<Element>)

  /** A parsed document; its children are the single root element. */
  datatype Document = Document(root: Element)

  /** A location path made of child steps only, such as `type/dimensions/dim`
      written as ["type", "dimensions", "dim"]. */
  type Path = p: seq<string> | |p| > 0 witness ["type"]

  // ---------------------------------------------------------------------
  // Path lookup
  // ---------------------------------------------------------------------

  /** The elements of `s` whose tag is `t`, in their order in `s`. */
  function Tagged(s: seq<Element>, t: string): (r: seq<Element>)
    ensures |r| <= |s|
    ensures forall e :: e in r <==> e in s && e.tag == t
  {
    if s == [] then []
    else (if s[0].tag == t then [s[0]] else []) + Tagged(s[1..], t)
  }

  /** One child step from the context `ctx`: the children tagged `t` of each
      context element, context element by context element. */
  function ChildStep(ctx: seq<Element>, t: string): (r: seq<Element>)
    ensures forall e :: e in r ==> e.tag == t
  {
    if ctx == [] then [] else Tagged(ctx[0].children, t) + ChildStep(ctx[1..], t)
  }

  /** The elements reached from `ctx` by the child steps `steps`. */
  function Descend(ctx: seq<Element>, steps: seq<string>): seq<Element>
    decreases |steps|
  {
    if steps == [] then ctx else Descend(ChildStep(ctx, steps[0]), steps[1..])
  }

  /** Every element the path `path` selects in `doc`, in document order: the
      first step is matched against the root, every further step against the
      children of what the previous step selected. */
  function Query(doc: Document, path: Path): (r: seq<Element>)
    ensures forall e :: e in r ==> e.tag == path[|path| - 1]
  {
    TaggedAtDescend([doc.root], path[0], path[1..]);
    Descend(Tagged([doc.root], path[0]), path[1..])
  }

  lemma {:induction false} TaggedAtDescend(ctx: seq<Element>, t: string, steps: seq<string>)
    ensures forall e :: e in Descend(Tagged(ctx, t), steps) ==> e.tag == (if steps == [] then t else steps[|steps| - 1])
  {
    DescendTag(Tagged(ctx, t), t, steps);
  }

  /** If every context element is tagged `t`, every element reached is tagged
      with the last step (or `t` when there are no steps). */
  lemma {:induction false} DescendTag(ctx: seq<Element>, t: string, steps: seq<string>)
    requires forall e :: e in ctx ==> e.tag == t
    ensures forall e :: e in Descend(ctx, steps) ==> e.tag == (if steps == [] then t else steps[|steps| - 1])
    decreases |steps|
  {
    if steps != [] {
      DescendTag(ChildStep(ctx, steps[0]), steps[0], steps[1..]);
    }
  }

  lemma {:induction false} ChildStepConcat(a: seq<Element>, b: seq<Element>, t: string)
    ensures ChildStep(a + b, t) == ChildStep(a, t) + ChildStep(b, t)
  {
    if a == [] {
      assert a + b == b;
    } else {
      var ab := a + b;
      assert ab[0] == a[0];
      assert ab[1..] == a[1..] + b;
      var h := Tagged(a[0].children, t);
      ChildStepConcat(a[1..], b, t);
      assert ChildStep(ab, t) == h + (ChildStep(a[1..], t) + ChildStep(b, t));
      assert ChildStep(a, t) == h + ChildStep(a[1..], t);
    }
  }

  /** Document order: what a path selects from a context that is split in two
      is what it selects from the first part followed by what it selects from
      the second part. */
  lemma {:induction false} DescendConcat(a: seq<Element>, b: seq<Element>, steps: seq<string>)
    ensures Descend(a + b, steps) == Descend(a, steps) + Descend(b, steps)
    decreases |steps|
  {
    if steps != [] {
      ChildStepConcat(a, b, steps[0]);
      DescendConcat(ChildStep(a, steps[0]), ChildStep(b, steps[0]), steps[1..]);
    }
  }

  /** A longer path is a shorter path followed by more steps. */
  lemma {:induction false} DescendCompose(ctx: seq<Element>, p: seq<string>, q: seq<string>)
    ensures Descend(ctx, p + q) == Descend(Descend(ctx, p), q)
    decreases |p|
  {
    if p == [] {
      assert p + q == q;
    } else {
      assert (p + q)[0] == p[0];
      assert (p + q)[1..] == p[1..] + q;
      DescendCompose(ChildStep(ctx, p[0]), p[1..], q);
    }
  }

  lemma {:induction false} DescendNothing(steps: seq<string>)
    ensures Descend([], steps) == []
    decreases |steps|
  {
    if steps != [] {
      DescendNothing(steps[1..]);
    }
  }

  /** Extending a path by one step selects the children with that tag of what
      the shorter path selects, in order. */
  lemma QueryStep(doc: Document, path: Path, t: string)
    ensures Query(doc, path + [t]) == ChildStep(Query(doc, path), t)
  {
    assert (path + [t])[0] == path[0];
    assert (path + [t])[1..] == path[1..] + [t];
    DescendCompose(Tagged([doc.root], path[0]), path[1..], [t]);
  }

  /** A path whose first step does not name the root selects nothing. */
  lemma QueryWrongRoot(doc: Document, path: Path)
    requires doc.root.tag != path[0]
    ensures Query(doc, path) == []
  {
    assert Tagged([doc.root], path[0]) == [];
    DescendNothing(path[1..]);
  }

  // ---------------------------------------------------------------------
  // Attributes
  // ---------------------------------------------------------------------

  /** The names of the attributes in `attrs`. */
  function AttrNames(attrs: seq<Attribute>): set<string>
  {
    set a | a in attrs :: a.0
  }

  /** XML's "unique attribute specification" rule: no name occurs twice on
      one element. Every tree the parser produces satisfies it. */
  predicate DistinctNames(attrs: seq<Attribute>)
  {
    forall i, j :: 0 <= i < j < |attrs| ==> attrs[i].0 != attrs[j].0
  }

  /** The value of the attribute called `n`, or None when there is none; if
      the name occurred more than once, the last occurrence is the one kept. */
  function AttrValue(attrs: seq<Attribute>, n: string): (r: Option<string>)
    ensures r.None? <==> n !in AttrNames(attrs)
    ensures r.Some? ==> (n, r.value) in attrs
  {
    if attrs == [] then None
    else
      var last := attrs[|attrs| - 1];
      assert attrs == attrs[..|attrs| - 1] + [last];
      if last.0 == n then Some(last.1) else AttrValue(attrs[..|attrs| - 1], n)
  }

  /** On a well-formed element, every attribute is found with its own value. */
  lemma {:induction false} DistinctAttrValue(attrs: seq<Attribute>, i: int)
    requires DistinctNames(attrs)
    requires 0 <= i < |attrs|
    ensures AttrValue(attrs, attrs[i].0) == Some(attrs[i].1)
  {
    var n := |attrs| - 1;
    if i < n {
      var init := attrs[..n];
      assert DistinctNames(init);
      assert init[i] == attrs[i];
      DistinctAttrValue(init, i);
    }
  }

  /** The attribute bag of an element: the map obtained by storing every
      attribute in turn, `hash[k] = v`, into an initially empty map. */
  function AttrMap(attrs: seq<Attribute>): (m: map<string, string>)
    ensures m.Keys == AttrNames(attrs)
    ensures forall k :: k in m ==> AttrValue(attrs, k) == Some(m[k])
  {
    if attrs == [] then map[]
    else
      var last := attrs[|attrs| - 1];
      assert attrs == attrs[..|attrs| - 1] + [last];
      AttrMap(attrs[..|attrs| - 1])[last.0 := last.1]
  }

  /** On a well-formed element, the bag binds each attribute's name to that
      attribute's value. */
  lemma AttrMapHoldsEach(attrs: seq<Attribute>, i: int)
    requires DistinctNames(attrs)
    requires 0 <= i < |attrs|
    ensures attrs[i].0 in AttrMap(attrs) && AttrMap(attrs)[attrs[i].0] == attrs[i].1
  {
    assert attrs[i] in attrs;
    DistinctAttrValue(attrs, i);
  }
}
