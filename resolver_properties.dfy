/** Properties of `type_loader` (schema_salad/python_codegen.py:343-407):
    the catalog only grows and stays well formed, every name is a function
    of the declaration's shape alone, resolving a shape again changes
    nothing, and the naming rule of each kind of declaration. */
module ResolverProperties {
  import opened Wrappers
  import opened Text
  import opened Seqs
  import opened TypeDefs
  import opened Names
  import opened Catalog
  import opened Resolver

  /** The loader name a declaration resolves to, computed from the
      declaration alone (no catalog). */
  function ShapeName(n: Naming, d: TypeDecl): string
    decreases d
  {
    match d
    case UnionDecl(alts) => "union_of_" + Join("_or_", Dedup(ShapeNames(n, alts)))
    case MappingDecl(tag, items, name, _, _) =>
      if tag.Some? && IsArrayTag(tag.value) && items.Some? then "array_of_" + ShapeName(n, items.value)
      else if tag.Some? && (IsEnumTag(tag.value) || IsRecordTag(tag.value)) && name.Some? then
        SafeName(n, name.value) + "Loader"
      else ""
    case ScalarDecl(s) => if Prim(s).Some? then Prim(s).value.name else SafeName(n, s) + "Loader"
  }

  function ShapeNames(n: Naming, alts: seq<TypeDecl>): (r: seq<string>)
    decreases alts
  {
    if |alts| == 0 then []
    else ShapeNames(n, alts[..|alts| - 1]) + [ShapeName(n, alts[|alts| - 1])]
  }

  /** The vocabulary entries a successful resolution adds: those of every
      enum the declaration contains, later ones overriding earlier ones. */
  function VocabOf(n: Naming, d: TypeDecl): map<string, string>
    decreases d
  {
    match d
    case UnionDecl(alts) => VocabOfAll(n, alts)
    case MappingDecl(tag, items, _, symbols, _) =>
      if tag.Some? && IsArrayTag(tag.value) && items.Some? then VocabOf(n, items.value)
      else if tag.Some? && !IsArrayTag(tag.value) && IsEnumTag(tag.value) && symbols.Some? then
        EnumVocab(n, symbols.value)
      else map[]
    case ScalarDecl(_) => map[]
  }

  function VocabOfAll(n: Naming, alts: seq<TypeDecl>): map<string, string>
    decreases alts
  {
    if |alts| == 0 then map[]
    else VocabOfAll(n, alts[..|alts| - 1]) + VocabOf(n, alts[|alts| - 1])
  }

  ghost predicate SubMap(a: map<string, TypeDef>, b: map<string, TypeDef>) {
    forall k :: k in a ==> k in b && b[k] == a[k]
  }

  // ----- the catalog only grows -----

  /** Resolution never removes or changes an entry and keeps the catalog
      well formed, whether it succeeds or raises. */
  lemma {:induction false} ResolveGrows(n: Naming, c: Catalog, d: TypeDecl)
    ensures Extends(c, Resolve(n, c, d).catalog)
    ensures Valid(c) ==> Valid(Resolve(n, c, d).catalog)
    decreases d
  {
    match d
    case UnionDecl(alts) =>
      ResolveAllGrows(n, c, alts);
      var all := ResolveAll(n, c, alts);
      if all.result.Success? {
        ExtendsTransitive(c, all.catalog, Resolve(n, c, d).catalog);
      }
    case MappingDecl(tag, items, name, symbols, isAbstract) =>
      if tag.Some? && IsArrayTag(tag.value) && items.Some? {
        ResolveGrows(n, c, items.value);
        var inner := Resolve(n, c, items.value);
        if inner.result.Success? {
          ExtendsTransitive(c, inner.catalog, Resolve(n, c, d).catalog);
        }
      } else {
        LeafGrows(n, c, d);
      }
    case ScalarDecl(s) =>
      LeafGrows(n, c, d);
  }

  /** `ResolveGrows` for the declarations that hold no other declaration. */
  lemma LeafGrows(n: Naming, c: Catalog, d: TypeDecl)
    requires !d.UnionDecl?
    requires d.MappingDecl? ==> !(d.tag.Some? && IsArrayTag(d.tag.value) && d.items.Some?)
    ensures Extends(c, Resolve(n, c, d).catalog)
    ensures Valid(c) ==> Valid(Resolve(n, c, d).catalog)
  {
    if d.MappingDecl? && d.tag.Some? && !IsArrayTag(d.tag.value) && IsEnumTag(d.tag.value) && d.symbols.Some? {
      var c1 := c.(vocab := c.vocab + EnumVocab(n, d.symbols.value));
      assert Extends(c, c1);
      assert Valid(c) ==> Valid(c1);
      if d.name.Some? {
        ExtendsTransitive(c, c1, Resolve(n, c, d).catalog);
      }
    }
  }

  lemma {:induction false} ResolveAllGrows(n: Naming, c: Catalog, alts: seq<TypeDecl>)
    ensures Extends(c, ResolveAll(n, c, alts).catalog)
    ensures Valid(c) ==> Valid(ResolveAll(n, c, alts).catalog)
    decreases alts
  {
    if |alts| > 0 {
      ResolveAllGrows(n, c, alts[..|alts| - 1]);
      var init := ResolveAll(n, c, alts[..|alts| - 1]);
      if init.result.Success? {
        ResolveGrows(n, init.catalog, alts[|alts| - 1]);
        ExtendsTransitive(c, init.catalog, Resolve(n, init.catalog, alts[|alts| - 1]).catalog);
      }
    }
  }

  // ----- names depend on the shape only -----

  /** The name of a resolved loader is `ShapeName(d)` whatever the catalog
      held before, and the loader is then in the catalog or is a primitive. */
  lemma {:induction false} ResolvedNameIsStructural(n: Naming, c: Catalog, d: TypeDecl)
    requires Valid(c)
    requires Resolve(n, c, d).result.Success?
    ensures Resolve(n, c, d).result.value.name == ShapeName(n, d)
    ensures var t := Resolve(n, c, d).result.value;
      t.name in Resolve(n, c, d).catalog.types || t in PrimValues
    decreases d
  {
    match d
    case UnionDecl(alts) =>
      ResolvedNamesAreStructural(n, c, alts);
    case MappingDecl(tag, items, name, symbols, isAbstract) =>
      if IsArrayTag(tag.value) {
        ResolvedNameIsStructural(n, c, items.value);
      }
    case ScalarDecl(s) =>
  }

  lemma {:induction false} ResolvedNamesAreStructural(n: Naming, c: Catalog, alts: seq<TypeDecl>)
    requires Valid(c)
    requires ResolveAll(n, c, alts).result.Success?
    ensures ResolveAll(n, c, alts).result.value == ShapeNames(n, alts)
    decreases alts
  {
    if |alts| > 0 {
      var init := ResolveAll(n, c, alts[..|alts| - 1]);
      ResolvedNamesAreStructural(n, c, alts[..|alts| - 1]);
      ResolveAllGrows(n, c, alts[..|alts| - 1]);
      ResolvedNameIsStructural(n, init.catalog, alts[|alts| - 1]);
    }
  }

  // ----- the vocabulary a resolution adds -----

  lemma {:induction false} ResolveVocab(n: Naming, c: Catalog, d: TypeDecl)
    requires Resolve(n, c, d).result.Success?
    ensures Resolve(n, c, d).catalog.vocab == c.vocab + VocabOf(n, d)
    decreases d
  {
    match d
    case UnionDecl(alts) =>
      ResolveAllVocab(n, c, alts);
    case MappingDecl(tag, items, name, symbols, isAbstract) =>
      if IsArrayTag(tag.value) {
        ResolveVocab(n, c, items.value);
      }
    case ScalarDecl(s) =>
  }

  lemma {:induction false} ResolveAllVocab(n: Naming, c: Catalog, alts: seq<TypeDecl>)
    requires ResolveAll(n, c, alts).result.Success?
    ensures ResolveAll(n, c, alts).catalog.vocab == c.vocab + VocabOfAll(n, alts)
    decreases alts
  {
    if |alts| > 0 {
      var init := ResolveAll(n, c, alts[..|alts| - 1]);
      ResolveAllVocab(n, c, alts[..|alts| - 1]);
      ResolveVocab(n, init.catalog, alts[|alts| - 1]);
      MapUnionAssoc(c.vocab, VocabOfAll(n, alts[..|alts| - 1]), VocabOf(n, alts[|alts| - 1]));
    }
  }

  /** Assigning one entry after a union is the union with the assignment. */
  lemma MapUnionUpdate(a: map<string, string>, b: map<string, string>, k: string, v: string)
    ensures (a + b)[k := v] == a + b[k := v]
  {
  }

  lemma MapUnionAssoc(a: map<string, string>, b: map<string, string>, c: map<string, string>)
    ensures (a + b) + c == a + (b + c)
  {
  }

  // ----- resolving again changes nothing -----

  /** Resolution is stable: in any catalog that already holds the loaders a
      first resolution left behind, resolving the same declaration returns
      the same descriptor, adds no loader, and only re-adds its vocabulary. */
  lemma {:induction false} ResolveStable(n: Naming, c: Catalog, d: TypeDecl, c': Catalog)
    requires Resolve(n, c, d).result.Success?
    requires SubMap(Resolve(n, c, d).catalog.types, c'.types)
    ensures Resolve(n, c', d) ==
      Resolution(Resolve(n, c, d).result, c'.(vocab := c'.vocab + VocabOf(n, d)))
    decreases d
  {
    ResolveGrows(n, c, d);
    match d
    case UnionDecl(alts) =>
      ResolveAllGrows(n, c, alts);
      ResolveAllStable(n, c, alts, c');
    case MappingDecl(tag, items, name, symbols, isAbstract) =>
      if IsArrayTag(tag.value) {
        ResolveGrows(n, c, items.value);
        ResolveStable(n, c, items.value, c');
      } else {
        LeafStable(n, c, d, c');
      }
    case ScalarDecl(s) =>
      LeafStable(n, c, d, c');
  }

  /** `ResolveStable` for the declarations that hold no other declaration. */
  lemma LeafStable(n: Naming, c: Catalog, d: TypeDecl, c': Catalog)
    requires !d.UnionDecl?
    requires d.MappingDecl? ==> d.tag.Some? && !IsArrayTag(d.tag.value)
    requires Resolve(n, c, d).result.Success?
    requires SubMap(Resolve(n, c, d).catalog.types, c'.types)
    ensures Resolve(n, c', d) ==
      Resolution(Resolve(n, c, d).result, c'.(vocab := c'.vocab + VocabOf(n, d)))
  {
    match d
    case ScalarDecl(s) =>
      ScalarStable(n, c, s, c');
    case MappingDecl(tag, items, name, symbols, isAbstract) =>
      if IsEnumTag(tag.value) {
        EnumStable(n, c, tag.value, items, name.value, symbols.value, isAbstract, c');
      } else {
        RecordStable(n, c, tag.value, items, name.value, symbols, isAbstract, c');
      }
  }

  lemma ScalarStable(n: Naming, c: Catalog, s: string, c': Catalog)
    requires Resolve(n, c, ScalarDecl(s)).result.Success?
    requires SubMap(Resolve(n, c, ScalarDecl(s)).catalog.types, c'.types)
    ensures Resolve(n, c', ScalarDecl(s)) ==
      Resolution(Resolve(n, c, ScalarDecl(s)).result, c'.(vocab := c'.vocab + VocabOf(n, ScalarDecl(s))))
  {
    assert VocabOf(n, ScalarDecl(s)) == map[];
    assert c'.vocab + map[] == c'.vocab;
    assert c'.(vocab := c'.vocab) == c';
    if Prim(s).None? && IsExpressionName(s) {
      var t := ExpressionTypeDef(n, s);
      assert Resolve(n, c, ScalarDecl(s)).catalog == DeclareType(c, t);
      assert t.name in c'.types;
      assert DeclareType(c', t) == c';
    }
  }

  lemma EnumStable(n: Naming, c: Catalog, tag: string, items: Option<TypeDecl>, name: string,
                   symbols: seq<string>, isAbstract: Option<bool>, c': Catalog)
    requires !IsArrayTag(tag) && IsEnumTag(tag)
    requires SubMap(Resolve(n, c, MappingDecl(Some(tag), items, Some(name), Some(symbols), isAbstract)).catalog.types, c'.types)
    ensures var d := MappingDecl(Some(tag), items, Some(name), Some(symbols), isAbstract);
      Resolve(n, c', d) == Resolution(Resolve(n, c, d).result, c'.(vocab := c'.vocab + VocabOf(n, d)))
  {
    var d := MappingDecl(Some(tag), items, Some(name), Some(symbols), isAbstract);
    var t := EnumTypeDef(n, name, symbols);
    var v := EnumVocab(n, symbols);
    var c1 := c.(vocab := c.vocab + v);
    var c1' := c'.(vocab := c'.vocab + v);
    ResolveEnum(n, c, tag, items, name, symbols, isAbstract);
    ResolveEnum(n, c', tag, items, name, symbols, isAbstract);
    assert t.name in DeclareType(c1, t).types;
    assert t.name in c1'.types;
    assert DeclareType(c1', t) == c1';
    EnumVocabOf(n, tag, items, name, symbols, isAbstract);
  }

  lemma EnumVocabOf(n: Naming, tag: string, items: Option<TypeDecl>, name: string,
                    symbols: seq<string>, isAbstract: Option<bool>)
    requires !IsArrayTag(tag) && IsEnumTag(tag)
    ensures VocabOf(n, MappingDecl(Some(tag), items, Some(name), Some(symbols), isAbstract)) == EnumVocab(n, symbols)
  {
  }

  /** What `type_loader` returns for a complete enum declaration. */
  lemma ResolveEnum(n: Naming, c: Catalog, tag: string, items: Option<TypeDecl>, name: string,
                    symbols: seq<string>, isAbstract: Option<bool>)
    requires !IsArrayTag(tag) && IsEnumTag(tag)
    ensures var t := EnumTypeDef(n, name, symbols);
      Resolve(n, c, MappingDecl(Some(tag), items, Some(name), Some(symbols), isAbstract))
      == Resolution(Success(t), DeclareType(c.(vocab := c.vocab + EnumVocab(n, symbols)), t))
  {
  }

  lemma RecordStable(n: Naming, c: Catalog, tag: string, items: Option<TypeDecl>, name: string,
                     symbols: Option<seq<string>>, isAbstract: Option<bool>, c': Catalog)
    requires !IsArrayTag(tag) && !IsEnumTag(tag) && IsRecordTag(tag)
    requires SubMap(Resolve(n, c, MappingDecl(Some(tag), items, Some(name), symbols, isAbstract)).catalog.types, c'.types)
    ensures var d := MappingDecl(Some(tag), items, Some(name), symbols, isAbstract);
      Resolve(n, c', d) == Resolution(Resolve(n, c, d).result, c'.(vocab := c'.vocab + VocabOf(n, d)))
  {
    var d := MappingDecl(Some(tag), items, Some(name), symbols, isAbstract);
    var t := RecordTypeDef(n, name, isAbstract.GetOr(false));
    assert Resolve(n, c, d) == Resolution(Success(t), DeclareType(c, t));
    assert t.name in c'.types;
    assert DeclareType(c', t) == c';
    assert Resolve(n, c', d) == Resolution(Success(t), c');
    assert VocabOf(n, d) == map[];
    assert c'.vocab + map[] == c'.vocab;
    assert c'.(vocab := c'.vocab) == c';
  }

  lemma {:induction false} ResolveAllStable(n: Naming, c: Catalog, alts: seq<TypeDecl>, c': Catalog)
    requires ResolveAll(n, c, alts).result.Success?
    requires SubMap(ResolveAll(n, c, alts).catalog.types, c'.types)
    ensures ResolveAll(n, c', alts) ==
      Resolutions(ResolveAll(n, c, alts).result, c'.(vocab := c'.vocab + VocabOfAll(n, alts)))
    decreases alts
  {
    if |alts| > 0 {
      var front, last := alts[..|alts| - 1], alts[|alts| - 1];
      var init := ResolveAll(n, c, front);
      ResolveGrows(n, init.catalog, last);
      ResolveAllStable(n, c, front, c');
      var c1 := c'.(vocab := c'.vocab + VocabOfAll(n, front));
      ResolveStable(n, init.catalog, last, c1);
      MapUnionAssoc(c'.vocab, VocabOfAll(n, front), VocabOf(n, last));
    }
  }

  /** Idempotent interning: resolving a declaration a second time returns
      the same descriptor and leaves the catalog exactly as the first
      resolution left it. */
  lemma ResolveIdempotent(n: Naming, c: Catalog, d: TypeDecl)
    requires Resolve(n, c, d).result.Success?
    ensures var first := Resolve(n, c, d);
      Resolve(n, first.catalog, d) == first
  {
    var first := Resolve(n, c, d);
    ResolveStable(n, c, d, first.catalog);
    ResolveVocab(n, c, d);
    MapUnionAssoc(c.vocab, VocabOf(n, d), VocabOf(n, d));
    assert VocabOf(n, d) + VocabOf(n, d) == VocabOf(n, d);
  }

  // ----- the naming rule of each kind of declaration -----

  /** A list resolves to `union_of_` + the member names joined by `_or_`,
      duplicates dropped in first-occurrence order; its loader references
      exactly those names. */
  lemma UnionResolution(n: Naming, c: Catalog, alts: seq<TypeDecl>)
    requires Valid(c)
    requires Resolve(n, c, UnionDecl(alts)).result.Success?
    ensures var t := Resolve(n, c, UnionDecl(alts)).result.value;
      var members := Dedup(ShapeNames(n, alts));
      && t.name == "union_of_" + Join("_or_", members)
      && t.init == UnionLoader(members)
      && NoDup(members)
      && (forall x :: x in members <==> x in ShapeNames(n, alts))
      && (forall i, j :: 0 <= i < j < |members| ==>
            FirstIndex(ShapeNames(n, alts), members[i]) < FirstIndex(ShapeNames(n, alts), members[j]))
  {
    ResolvedNamesAreStructural(n, c, alts);
    DedupKeepsFirstOccurrenceOrder(ShapeNames(n, alts));
  }

  /** Every alternative is a primitive name. */
  predicate AllPrimitive(alts: seq<TypeDecl>) {
    forall i :: 0 <= i < |alts| ==> alts[i].ScalarDecl? && Prim(alts[i].typeName).Some?
  }

  function PrimitiveNames(alts: seq<TypeDecl>): (r: seq<string>)
    requires AllPrimitive(alts)
    ensures |r| == |alts|
  {
    if |alts| == 0 then []
    else PrimitiveNames(alts[..|alts| - 1]) + [Prim(alts[|alts| - 1].typeName).value.name]
  }

  /** Primitive alternatives resolve to their fixed names and declare nothing. */
  lemma {:induction false} PrimitiveAlternatives(n: Naming, c: Catalog, alts: seq<TypeDecl>)
    requires AllPrimitive(alts)
    ensures ResolveAll(n, c, alts) == Resolutions(Success(PrimitiveNames(alts)), c)
    decreases alts
  {
    if |alts| > 0 {
      PrimitiveAlternatives(n, c, alts[..|alts| - 1]);
    }
  }

  const StringDecl: TypeDecl := ScalarDecl("string")
  const IntDecl: TypeDecl := ScalarDecl("int")

  lemma PrimitiveNamesOfPair(a: TypeDecl, b: TypeDecl)
    requires a.ScalarDecl? && b.ScalarDecl? && Prim(a.typeName).Some? && Prim(b.typeName).Some?
    ensures AllPrimitive([a, b])
    ensures PrimitiveNames([a, b]) == [Prim(a.typeName).value.name, Prim(b.typeName).value.name]
  {
    assert [a, b][..1] == [a];
    assert [a][..0] == [];
  }

  lemma DedupOfDistinctPair(x: string, y: string)
    requires x != y
    ensures Dedup([x, y]) == [x, y]
  {
    assert [x, y][..1] == [x];
    assert [x][..0] == [];
  }

  /** A union of two distinct primitives names both, in declared order. */
  lemma PrimitivePairUnion(n: Naming, c: Catalog, a: TypeDecl, b: TypeDecl)
    requires a.ScalarDecl? && b.ScalarDecl? && Prim(a.typeName).Some? && Prim(b.typeName).Some?
    requires Prim(a.typeName).value.name != Prim(b.typeName).value.name
    ensures Resolve(n, c, UnionDecl([a, b])).result
      == Success(UnionTypeDef([Prim(a.typeName).value.name, Prim(b.typeName).value.name]))
  {
    PrimitiveNamesOfPair(a, b);
    PrimitiveAlternatives(n, c, [a, b]);
    DedupOfDistinctPair(Prim(a.typeName).value.name, Prim(b.typeName).value.name);
  }

  /** Union names depend on the declared order: `[string, int]` and
      `[int, string]` resolve to two different loaders. */
  lemma UnionNameDependsOnOrder(n: Naming, c: Catalog)
    ensures Resolve(n, c, UnionDecl([StringDecl, IntDecl])).result
      == Success(UnionTypeDef(["strtype", "inttype"]))
    ensures Resolve(n, c, UnionDecl([IntDecl, StringDecl])).result
      == Success(UnionTypeDef(["inttype", "strtype"]))
    ensures UnionTypeDef(["strtype", "inttype"]).name != UnionTypeDef(["inttype", "strtype"]).name
  {
    assert Prim("string") == Some(StringTypeDef) && Prim("int") == Some(IntTypeDef);
    PrimitivePairUnion(n, c, StringDecl, IntDecl);
    PrimitivePairUnion(n, c, IntDecl, StringDecl);
    PairNamesDiffer();
  }

  lemma PairNamesDiffer()
    ensures UnionTypeDef(["strtype", "inttype"]).name != UnionTypeDef(["inttype", "strtype"]).name
  {
    var u1 := UnionTypeDef(["strtype", "inttype"]).name;
    var u2 := UnionTypeDef(["inttype", "strtype"]).name;
    assert Join("_or_", ["strtype", "inttype"]) == "strtype" + "_or_" + "inttype";
    assert Join("_or_", ["inttype", "strtype"]) == "inttype" + "_or_" + "strtype";
    assert u1[9] == 's' && u2[9] == 'i';
  }

  lemma DedupOfRepeat(x: string, y: string)
    requires x != y
    ensures Dedup([x, x, y]) == [x, y]
  {
    assert [x, x, y][..2] == [x, x];
    assert [x, x][..1] == [x];
    assert [x][..0] == [];
  }

  lemma PrimitiveNamesOfTriple(a: TypeDecl, b: TypeDecl, d: TypeDecl)
    requires a.ScalarDecl? && b.ScalarDecl? && d.ScalarDecl?
    requires Prim(a.typeName).Some? && Prim(b.typeName).Some? && Prim(d.typeName).Some?
    ensures AllPrimitive([a, b, d])
    ensures PrimitiveNames([a, b, d]) ==
      [Prim(a.typeName).value.name, Prim(b.typeName).value.name, Prim(d.typeName).value.name]
  {
    assert [a, b, d][..2] == [a, b];
    PrimitiveNamesOfPair(a, b);
  }

  /** A repeated member, even under another spelling, is named once:
      `[string, xsd:string, int]` gives the same loader as `[string, int]`. */
  lemma UnionDropsRepeatedMembers(n: Naming, c: Catalog)
    ensures Resolve(n, c, UnionDecl([StringDecl, ScalarDecl(XsdPrefix + "string"), IntDecl])).result
      == Success(UnionTypeDef(["strtype", "inttype"]))
  {
    XsdSpellingAgrees("string");
    assert Prim("string") == Some(StringTypeDef) && Prim("int") == Some(IntTypeDef);
    var alts := [StringDecl, ScalarDecl(XsdPrefix + "string"), IntDecl];
    PrimitiveNamesOfTriple(StringDecl, ScalarDecl(XsdPrefix + "string"), IntDecl);
    PrimitiveAlternatives(n, c, alts);
    DedupOfRepeat("strtype", "inttype");
  }

  /** An `array` mapping (short or salad URI tag) resolves to
      `array_of_<items>`, whose loader wraps the item loader by name. */
  lemma ArrayResolution(n: Naming, c: Catalog, tag: string, items: TypeDecl,
                        name: Option<string>, symbols: Option<seq<string>>, isAbstract: Option<bool>)
    requires IsArrayTag(tag)
    ensures var d := MappingDecl(Some(tag), Some(items), name, symbols, isAbstract);
      var inner := Resolve(n, c, items);
      && (Resolve(n, c, d).result.Success? <==> inner.result.Success?)
      && (inner.result.Success? ==>
            Resolve(n, c, d) == Resolution(Success(ArrayTypeDef(inner.result.value.name)),
                                           DeclareType(inner.catalog, ArrayTypeDef(inner.result.value.name))))
      && (inner.result.Success? ==>
            ArrayTypeDef(inner.result.value.name).init == ArrayLoader(inner.result.value.name))
  {
  }

  // ----- a loader's dependencies are filed before it -----

  /** Every primitive loader's name is filed, as it is after `prologue`. */
  ghost predicate PrimsFiled(c: Catalog) {
    forall t :: t in PrimValues ==> t.name in c.types
  }

  lemma PrimsFiledGrows(c: Catalog, d: Catalog)
    requires PrimsFiled(c) && Extends(c, d)
    ensures PrimsFiled(d)
  {
  }

  /** After a successful resolution the loader it names is filed. */
  lemma ResolvedLoaderFiled(n: Naming, c: Catalog, d: TypeDecl)
    requires Valid(c) && PrimsFiled(c)
    requires Resolve(n, c, d).result.Success?
    ensures Resolve(n, c, d).result.value.name in Resolve(n, c, d).catalog.types
  {
    ResolvedNameIsStructural(n, c, d);
    ResolveGrows(n, c, d);
  }

  /** After resolving the members of a union, every member name is filed. */
  lemma {:induction false} ResolvedMembersFiled(n: Naming, c: Catalog, alts: seq<TypeDecl>)
    requires Valid(c) && PrimsFiled(c)
    requires ResolveAll(n, c, alts).result.Success?
    ensures forall x :: x in ResolveAll(n, c, alts).result.value ==> x in ResolveAll(n, c, alts).catalog.types
    decreases |alts|
  {
    if |alts| > 0 {
      var front, last := alts[..|alts| - 1], alts[|alts| - 1];
      var init := ResolveAll(n, c, front);
      ResolvedMembersFiled(n, c, front);
      ResolveAllGrows(n, c, front);
      PrimsFiledGrows(c, init.catalog);
      var r := Resolve(n, init.catalog, last);
      ResolvedLoaderFiled(n, init.catalog, last);
      ResolveGrows(n, init.catalog, last);
      assert ResolveAll(n, c, alts).result.value == init.result.value + [r.result.value.name];
    }
  }

  /** `collected_types` keeps insertion order so that a loader comes after
      the loaders it names: a union is declared into a catalog that already
      files every one of its members. */
  lemma UnionDependenciesFiledFirst(n: Naming, c: Catalog, alts: seq<TypeDecl>)
    requires Valid(c) && PrimsFiled(c)
    requires Resolve(n, c, UnionDecl(alts)).result.Success?
    ensures var all := ResolveAll(n, c, alts);
      var t := Resolve(n, c, UnionDecl(alts)).result.value;
      && all.result.Success?
      && Resolve(n, c, UnionDecl(alts)).catalog == DeclareType(all.catalog, t)
      && t.init == UnionLoader(Dedup(all.result.value))
      && (forall x :: x in t.init.members ==> x in all.catalog.types)
  {
    ResolvedMembersFiled(n, c, alts);
  }

  /** The same for an array: it is declared into a catalog that already
      files its item loader. */
  lemma ArrayDependencyFiledFirst(n: Naming, c: Catalog, tag: string, items: TypeDecl,
                                  name: Option<string>, symbols: Option<seq<string>>, isAbstract: Option<bool>)
    requires Valid(c) && PrimsFiled(c)
    requires IsArrayTag(tag)
    requires Resolve(n, c, items).result.Success?
    ensures var inner := Resolve(n, c, items);
      var t := ArrayTypeDef(inner.result.value.name);
      && Resolve(n, c, MappingDecl(Some(tag), Some(items), name, symbols, isAbstract))
           == Resolution(Success(t), DeclareType(inner.catalog, t))
      && t.init.items in inner.catalog.types
  {
    ResolvedLoaderFiled(n, c, items);
  }

  /** `prologue` establishes `PrimsFiled`. */
  lemma PrologueFilesPrims(c: Catalog)
    ensures PrimsFiled(DeclareAll(c, PrimValues))
  {
  }

  /** An `enum` mapping records `shortname(sym) -> sym` for every symbol,
      and resolves to `<safe name>Loader` listing the safe symbol names in
      their declared order. */
  lemma EnumResolution(n: Naming, c: Catalog, tag: string, name: string, symbols: seq<string>,
                       items: Option<TypeDecl>, isAbstract: Option<bool>)
    requires IsEnumTag(tag)
    ensures var res := Resolve(n, c, MappingDecl(Some(tag), items, Some(name), Some(symbols), isAbstract));
      var t := EnumTypeDef(n, name, symbols);
      && res.result == Success(t)
      && t.name == SafeName(n, name) + "Loader"
      && t.init.EnumLoader? && |t.init.symbols| == |symbols|
      && (forall i :: 0 <= i < |symbols| ==> t.init.symbols[i] == SafeName(n, symbols[i]))
      && (forall s :: s in symbols ==> n.shortname(s) in res.catalog.vocab)
      && (forall k :: k in res.catalog.vocab && k !in c.vocab ==>
            res.catalog.vocab[k] in symbols && n.shortname(res.catalog.vocab[k]) == k)
  {
  }

  /** A `record` mapping resolves to `<safe name>Loader`, a record loader of
      the generated class, abstract exactly when the mapping says so. */
  lemma RecordResolution(n: Naming, c: Catalog, tag: string, name: string, isAbstract: Option<bool>,
                         items: Option<TypeDecl>, symbols: Option<seq<string>>)
    requires IsRecordTag(tag)
    ensures var res := Resolve(n, c, MappingDecl(Some(tag), items, Some(name), symbols, isAbstract));
      && res.result.Success?
      && res.result.value.name == SafeName(n, name) + "Loader"
      && res.result.value.init == RecordLoader(SafeName(n, name))
      && (res.result.value.isAbstract <==> isAbstract == Some(true))
      && res.catalog.vocab == c.vocab
  {
  }

  /** A mapping whose `type` is none of array, enum, record raises and
      declares nothing. */
  lemma UnsupportedShapeFails(n: Naming, c: Catalog, d: TypeDecl)
    requires d.MappingDecl? && d.tag.Some?
    requires !IsArrayTag(d.tag.value) && !IsEnumTag(d.tag.value) && !IsRecordTag(d.tag.value)
    ensures Resolve(n, c, d) == Resolution(Failure(UnsupportedTypeShape(d.tag.value)), c)
  {
  }

  /** A primitive name resolves to its fixed descriptor and declares nothing. */
  lemma PrimitiveResolution(n: Naming, c: Catalog, s: string)
    requires Prim(s).Some?
    ensures Resolve(n, c, ScalarDecl(s)) == Resolution(Success(Prim(s).value), c)
  {
  }

  /** `Expression` (short or CWL URI spelling) is not a primitive: it
      resolves to `<safe name>Loader`, an expression loader over `str`,
      interned like any composite loader, with the vocabulary untouched. */
  lemma ExpressionResolution(n: Naming, c: Catalog, s: string)
    requires IsExpressionName(s)
    ensures var t := ExpressionTypeDef(n, s);
      && Resolve(n, c, ScalarDecl(s)) == Resolution(Success(t), DeclareType(c, t))
      && t.name == SafeName(n, s) + "Loader"
      && t.init == ExpressionLoader
      && !t.isAbstract && !t.isUri
      && Resolve(n, c, ScalarDecl(s)).catalog.vocab == c.vocab
  {
    PrimDomain(s);
  }

  /** Any other name is only a lookup: it resolves exactly when
      `<safe name>Loader` was declared before, to that descriptor, and
      otherwise raises; either way the catalog is unchanged. */
  lemma ScalarReferenceResolution(n: Naming, c: Catalog, s: string)
    requires Prim(s).None? && !IsExpressionName(s)
    ensures var key := SafeName(n, s) + "Loader";
      && Resolve(n, c, ScalarDecl(s)).catalog == c
      && (Resolve(n, c, ScalarDecl(s)).result.Success? <==> key in c.types)
      && (key in c.types ==> Resolve(n, c, ScalarDecl(s)).result.value == c.types[key])
      && (key !in c.types ==> Resolve(n, c, ScalarDecl(s)).result == Failure(UnresolvedTypeReference(key)))
  {
  }

  /** Records are resolved in one pass: a reference to a record fails until
      the record's own declaration has been resolved, and succeeds after. */
  lemma ForwardReferenceOrder(n: Naming, c: Catalog, name: string)
    requires Valid(c)
    requires Prim(name).None? && !IsExpressionName(name)
    requires SafeName(n, name) + "Loader" !in c.types
    ensures Resolve(n, c, ScalarDecl(name)).result.Failure?
    ensures var rec := MappingDecl(Some("record"), None, Some(name), None, None);
      var after := Resolve(n, c, rec).catalog;
      Resolve(n, after, ScalarDecl(name)).result == Success(RecordTypeDef(n, name, false))
  {
  }

  /** `type_loader` keeps the vocabulary coherent, on failure as well:
      every entry it adds is an enum symbol filed under its short name. */
  lemma {:induction false} ResolveKeepsVocabCoherent(n: Naming, c: Catalog, d: TypeDecl)
    requires VocabCoherent(n, c.vocab)
    ensures VocabCoherent(n, Resolve(n, c, d).catalog.vocab)
    decreases d
  {
    match d
    case UnionDecl(alts) =>
      ResolveAllKeepsVocabCoherent(n, c, alts);
    case MappingDecl(tag, items, name, symbols, isAbstract) =>
      if tag.Some? && IsArrayTag(tag.value) && items.Some? {
        ResolveKeepsVocabCoherent(n, c, items.value);
      }
    case ScalarDecl(s) =>
  }

  lemma {:induction false} ResolveAllKeepsVocabCoherent(n: Naming, c: Catalog, alts: seq<TypeDecl>)
    requires VocabCoherent(n, c.vocab)
    ensures VocabCoherent(n, ResolveAll(n, c, alts).catalog.vocab)
    decreases alts
  {
    if |alts| > 0 {
      var front := alts[..|alts| - 1];
      ResolveAllKeepsVocabCoherent(n, c, front);
      var init := ResolveAll(n, c, front);
      if init.result.Success? {
        ResolveKeepsVocabCoherent(n, init.catalog, alts[|alts| - 1]);
      }
    }
  }

  /** A failing alternative ends the comprehension: nothing after it is
      resolved. */
  lemma {:induction false} ResolveAllStopsAtFailure(n: Naming, c: Catalog, alts: seq<TypeDecl>, j: nat)
    requires j <= |alts| && ResolveAll(n, c, alts[..j]).result.Failure?
    ensures ResolveAll(n, c, alts) == ResolveAll(n, c, alts[..j])
    decreases |alts| - j
  {
    if j == |alts| {
      assert alts[..j] == alts;
    } else {
      var front := alts[..|alts| - 1];
      assert front[..j] == alts[..j];
      ResolveAllStopsAtFailure(n, c, front, j);
    }
  }
}
