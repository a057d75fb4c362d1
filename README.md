# SrcGen::Config in Dafny

This project models `SrcGen::Config` from the CRTM source generator. `SrcGen::Config` turns a parsed XML type declaration into the configuration record that code generation reads. That record holds:

- the type's `name`, and `type_name`, which is the name followed by `_type`;
- the `release` and `version` values;
- four collections of attribute bags: `dimensions` (sorted by their `index` attribute), `dimvectors` (sorted by `dimindex`), and `scalardata` and `arraydata` (left in document order);
- three derived accessors: `dim_names`, `max_dim_name_length` and `max_dimvec_name_length`.

The parsed document is the model's input. It is a tree of `Element(tag, attrs, children)` values, with attributes kept in document order.

Modules:

- `Wrappers` (wrappers.dfy): `Option` stands for Ruby's `nil`. `Result` stands for a raised exception.
- `Xml` (xml.dfy): the tree, and child-step path lookup (`Query`) as REXML's `elements[key]` and `elements.each(key)` use it. `AttrValue` is the attribute lookup `attributes[name]`, and `AttrMap` is the map that `hash[k] = v` builds. The module also proves that lookup keeps document order, how lookups compose, and that every attribute lands in the map.
- `Ordering` (ordering.dfy): Ruby's `String#<=>` as `LexLe`, with totality, transitivity and antisymmetry proved. `SortBy` models `sort_by {|d| d[key]}` over attribute bags. It fails exactly when some bags carry the key and others lack it. It is proved sorted and a permutation of its input. When keys are present and distinct, the sorted result is proved independent of the input order.
- `SrcGenConfig` (config.dfy) contains:
  - the scalar reads;
  - `Group`, and `ExtractGroup`, its loop implementation;
  - `Build`, a function giving what `initialize` produces or the first error it raises;
  - the class `Config`. Its fields are the Ruby instance variables, and `Create` fills them in `initialize`'s order. `Valid()` ties the fields to `Build(xml)`. The accessors are the class's functions.
- `SrcGenConfigCases` (config_cases.dfy): small declarations worked through `Build`. One has dimensions `x` (index 2) and `y` (index 0), which come out `y`, `x`. One has index `"10"` sorting before `"2"`. One has no dimensions, so the maximum is None. One mixes a present index with a missing one, so the sort raises.

## Behaviour followed

The model follows `config.rb` as written:

- **Missing element:** `extract_attribute` raises only when no element matches the path. The model returns `Failure(NoElement(path))` for that.
- **Missing attribute:** an element without the attribute reads as `nil`. The model returns `Success(None)`.
- **Nil name:** a nil `name` gives `type_name == "_type"`, because string interpolation turns nil into the empty string.
- **Sort keys:** keys are compared as raw strings, lexicographically, so `"10"` sorts before `"2"`. There is no numeric reading.
- **When the sort fails:** two absent keys compare equal (`nil <=> nil` is 0). So the sort fails only when a present key meets an absent one.
- **Sort order:** Ruby's `sort_by` is not promised to be stable. Only "sorted and a permutation" is claimed.
- **Empty maximum:** `max` of an empty collection is `nil`. The model returns `Success(None)`, not an error.
- **Missing name in the maximum:** if some bag has no `name`, `.length` on nil raises. The model returns `Failure(NameMissing)`.
- **Attribute names:** XML forbids the same attribute name twice on one element. Where a lemma needs that, it takes it as a precondition (`DistinctNames`). Without it, the last occurrence of a name wins in both the lookup and the map.
- **Characters:** strings are sequences of Unicode code points. Ruby's `length` counts characters, and code-point order agrees with the UTF-8 byte order that `String#<=>` compares.

## Model

| member | source | states |
|---|---|---|
| Xml.Query | scripts/ruby/srcgen/lib/srcgen/config.rb:79 | every element a child-step path selects carries the path's last tag |
| Xml.DescendConcat | scripts/ruby/srcgen/lib/srcgen/config.rb:79 | document order: what a path selects from a split context is what it selects from the first part, followed by what it selects from the second part |
| Xml.DescendCompose | scripts/ruby/srcgen/lib/srcgen/config.rb:79 | a path `p/q` selects what `q` selects from the result of `p` |
| Xml.QueryStep | scripts/ruby/srcgen/lib/srcgen/config.rb:79 | extending a path by one step selects the children with that tag of the shorter path's result, in order |
| Xml.QueryWrongRoot | scripts/ruby/srcgen/lib/srcgen/config.rb:79 | a path whose first step does not name the root selects nothing |
| Xml.AttrValue | scripts/ruby/srcgen/lib/srcgen/config.rb:66 | `attributes[name]` is None exactly when no attribute has that name, and a value found is one the element carries |
| Xml.DistinctAttrValue | scripts/ruby/srcgen/lib/srcgen/config.rb:66 | on an element with distinct attribute names, each attribute is found with its own value |
| Xml.AttrMap | scripts/ruby/srcgen/lib/srcgen/config.rb:80-82 | the bag's keys are exactly the element's attribute names, and each key maps to that attribute's value |
| Xml.AttrMapHoldsEach | scripts/ruby/srcgen/lib/srcgen/config.rb:81 | with distinct names, every attribute `(k, v)` of the element gives `bag[k] == v` |
| Ordering.LexLe | scripts/ruby/srcgen/lib/srcgen/config.rb:26-27 | Ruby's `String#<=>` on the sort keys, character by character; a string that is a prefix of another sorts first |
| Ordering.KeyOf | scripts/ruby/srcgen/lib/srcgen/config.rb:26-27 | `d[key]` is nil exactly when the bag lacks the key, and otherwise the value bound to it |
| Ordering.Mixed | scripts/ruby/srcgen/lib/srcgen/config.rb:26-27 | the condition under which `sort_by` raises: it fails exactly when neither all bags carry the key nor none does, which needs at least two bags |
| Ordering.LexLeTotal | scripts/ruby/srcgen/lib/srcgen/config.rb:26-27 | any two key strings are comparable |
| Ordering.LexLeTransitive | scripts/ruby/srcgen/lib/srcgen/config.rb:26-27 | the string order is transitive |
| Ordering.LexLeAntisymmetric | scripts/ruby/srcgen/lib/srcgen/config.rb:26-27 | two strings each at most the other are equal |
| Ordering.TenSortsBeforeTwo | scripts/ruby/srcgen/lib/srcgen/config.rb:26 | keys compare as text: `"10"` comes before `"2"` |
| Ordering.Insert | scripts/ruby/srcgen/lib/srcgen/config.rb:26-27 | inserting into a sorted sequence keeps it sorted and adds exactly that bag |
| Ordering.InsertionSort | scripts/ruby/srcgen/lib/srcgen/config.rb:26-27 | the result is sorted by the key and a permutation of the input |
| Ordering.SortBy | scripts/ruby/srcgen/lib/srcgen/config.rb:26-27 | `sort_by` fails exactly when some bags carry the key and some do not; otherwise the result is sorted and a permutation |
| Ordering.SortByAscending | scripts/ruby/srcgen/lib/srcgen/config.rb:26-27 | when the sort succeeds on bags carrying the key, the result has the same length, every bag still carries the key, and the key strings ascend |
| Ordering.SortedResultAscending | scripts/ruby/srcgen/lib/srcgen/config.rb:26-27 | if the first sorted bag carries the key, all do, and their key strings ascend |
| Ordering.SortedUnique | scripts/ruby/srcgen/lib/srcgen/config.rb:26-27 | two sorted permutations of the same bags with present, distinct keys are equal |
| Ordering.SortByOrderIndependent | scripts/ruby/srcgen/lib/srcgen/config.rb:26-27 | reordering the declarations does not change the sorted result when keys are present and distinct |
| SrcGenConfig.ExtractAttribute | scripts/ruby/srcgen/lib/srcgen/config.rb:65-67 | fails exactly when no element is at the path; otherwise None exactly when the first element lacks the attribute, and a value found belongs to that element |
| SrcGenConfig.ExtractAttributeFinds | scripts/ruby/srcgen/lib/srcgen/config.rb:65-67 | on a well-formed first element, its value for the name is what is read |
| SrcGenConfig.ExtractName | scripts/ruby/srcgen/lib/srcgen/config.rb:69-71 | the same contract for the `name` attribute |
| SrcGenConfig.ExtractValue | scripts/ruby/srcgen/lib/srcgen/config.rb:73-75 | the same contract for the `value` attribute |
| SrcGenConfig.Group | scripts/ruby/srcgen/lib/srcgen/config.rb:77-85 | one bag per matching element, in document order; bag i holds exactly element i's attribute names with their values |
| SrcGenConfig.GroupHoldsAttributes | scripts/ruby/srcgen/lib/srcgen/config.rb:80-82 | with distinct names, bag i binds each attribute of element i to its value |
| SrcGenConfig.GroupWrongRoot | scripts/ruby/srcgen/lib/srcgen/config.rb:77-85 | a wrong root gives an empty group, not an error |
| SrcGenConfig.ExtractGroup | scripts/ruby/srcgen/lib/srcgen/config.rb:77-85 | the loop that fills a fresh hash per element and appends it returns exactly `Group` |
| SrcGenConfig.TypeName | scripts/ruby/srcgen/lib/srcgen/config.rb:23 | the result ends in `_type` and what precedes that suffix is the name (empty for nil) |
| SrcGenConfig.Build | scripts/ruby/srcgen/lib/srcgen/config.rb:20-31 | fails with the first of: missing `type`, missing `release`, missing `version`, mixed dimension keys, mixed dimvector keys; succeeds exactly when none applies |
| SrcGenConfig.BuildRecord | scripts/ruby/srcgen/lib/srcgen/config.rb:22-29 | on success: the name, release and version are what was read; `type_name` is `TypeName` of the name, so the name plus `_type`, and exactly `_type` for nil; `dimensions` and `dimvectors` are sorted permutations of their groups; `scalardata` and `arraydata` equal their groups unchanged |
| SrcGenConfig.BuildSortedByIndexText | scripts/ruby/srcgen/lib/srcgen/config.rb:26-27 | when the first dimension has an `index`, all do and the index strings ascend; the same for `dimindex` |
| SrcGenConfig.MaxNameLength | scripts/ruby/srcgen/lib/srcgen/config.rb:34 | an error exactly when some bag lacks `name`; None exactly on an empty collection; otherwise at least every name's length and equal to one of them |
| SrcGenConfig.Config.constructor | scripts/ruby/srcgen/lib/srcgen/config.rb:22-29 | accepts only the record a successful build makes of the document; each field holds the value given for it, and the new object is valid |
| SrcGenConfig.Config.ValidPromises | scripts/ruby/srcgen/lib/srcgen/config.rb:20-31 | a valid configuration has `type_name` equal to `TypeName` of its name (the name plus `_type`, exactly `_type` for nil), sorted permutations in `dimensions` and `dimvectors`, and unchanged `scalardata` and `arraydata` |
| SrcGenConfig.Config.Create | scripts/ruby/srcgen/lib/srcgen/config.rb:20-31 | fails exactly when `Build` fails, with the same error; otherwise it returns a new, valid object whose fields are `Build`'s record |
| SrcGenConfig.Names | scripts/ruby/srcgen/lib/srcgen/config.rb:38 | `collect {|d| d[:name]}`: same length as the bags; entry i is bag i's `name`, or None where it has none |
| SrcGenConfig.Config.DimNames | scripts/ruby/srcgen/lib/srcgen/config.rb:37-39 | same length as `dimensions`; entry i is dimension i's `name`, or None where it has none |
| SrcGenConfig.Config.MaxDimNameLength | scripts/ruby/srcgen/lib/srcgen/config.rb:33-35 | the `MaxNameLength` contract over `dimensions` |
| SrcGenConfig.Config.MaxDimvecNameLength | scripts/ruby/srcgen/lib/srcgen/config.rb:43-45 | the `MaxNameLength` contract over `dimvectors` |
| SrcGenConfigCases.BuildTypeDoc | scripts/ruby/srcgen/lib/srcgen/config.rb:20-31 | on a declaration with a name, release 2, version 1 and `dim` elements whose sort succeeds, the record is those values, the sorted bags and three empty groups |
| SrcGenConfigCases.BuildTypeDocMixed | scripts/ruby/srcgen/lib/srcgen/config.rb:26 | on the same declaration with mixed `index` keys, construction fails at the dimension sort |
| SrcGenConfigCases.BuildTwoSwapped | scripts/ruby/srcgen/lib/srcgen/config.rb:26 | two dimensions whose index strings are out of order come out swapped |
| SrcGenConfigCases.DimensionsSortedByIndex | scripts/ruby/srcgen/lib/srcgen/config.rb:22-26 | dimensions `x` (index 2) and `y` (index 0) come out as `y`, `x`, the type name is the name plus `_type`, and the dimension names read `y`, `x` |
| SrcGenConfigCases.IndexComparedAsText | scripts/ruby/srcgen/lib/srcgen/config.rb:26 | a dimension with index `"10"` is placed before one with index `"2"` |
| SrcGenConfigCases.NoDimensionsNoMaximum | scripts/ruby/srcgen/lib/srcgen/config.rb:33-35 | with no `dim` elements, construction succeeds and the longest-name length is None |
| SrcGenConfigCases.MissingIndexFails | scripts/ruby/srcgen/lib/srcgen/config.rb:26 | a `dim` without `index` next to one with an index makes construction fail at the dimension sort |

## Left out

- `load` (config.rb:50-63): it opens the file and parses it with REXML. Both are file I/O and a foreign library. The model starts from the parsed document, so the parse-error rescue and the `RuntimeError` naming the file are not modelled.
- Debug printing (config.rb:53-58): console output only. The `debug` flag has no other effect, so it is not a parameter.
- XPath beyond plain child steps: only paths made of child steps occur (config.rb:22-29). They are written as step sequences, such as `["type", "dimensions", "dim"]`, not parsed from text.
- The empty `Dimension` class (config.rb:5-8): it has no behaviour.
- Key order of the bags (config.rb:80-82): a Ruby `Hash` remembers the order in which its keys were inserted, here document order. A Dafny `map` has no order, so the bags do not record it. No operation of `Config` reads that order.
- `to_sym` (config.rb:81): bag keys stay strings, and a symbol key reads as the same string.
- `attr_reader` (config.rb:12-16): the Dafny fields are public `const` fields, set once by the constructor, so readers can read them and no one can assign them.
- Exception classes and messages: raised exceptions become `ConfigError` values. These are `NoElement(path)` for `NoMethodError` on a nil element, `Incomparable(path, key)` for the `ArgumentError` from `sort_by`, and `NameMissing` for `NoMethodError` on a nil name.
- Ordering.SortBy: Ruby raises when its sort actually compares nil with a string. The model raises whenever present and absent keys are both in a group of two or more, and takes that to be the same condition.
- SrcGenConfig.Build: among bags with equal keys, the model puts them in a stable order. Ruby's order for ties is unspecified. Only "sorted and a permutation" is claimed about `dimensions` and `dimvectors`.
- Mutation after construction: none happens in the source. The `Config` fields are `const`, so nothing can change them after `Create`.
