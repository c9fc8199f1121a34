/** The field-level wrapper loaders (schema_salad/python_codegen.py:536-585):
    each builds a descriptor whose name is made only from its inner
    loader's name and its own parameters, then interns it like any other. */
module FieldLoaders {
  import opened Wrappers
  import opened Text
  import opened TypeDefs
  import opened Names
  import opened Catalog

  /** The descriptor `uri_loader(inner, scoped_id, vocab_term, ref_scope)`
      declares. */
  function UriTypeDef(inner: TypeDef, scopedId: bool, vocabTerm: bool, refScope: Option<int>): TypeDef {
    TypeDef(
      "uri_" + inner.name + "_" + UriParams(scopedId, vocabTerm, refScope),
      UriLoader(inner.name, scopedId, vocabTerm, refScope),
      true, scopedId, refScope, false)
  }

  /** The part of a URI loader's name after its inner loader's name:
      the Python renderings of its three parameters, joined by `_`. */
  function UriParams(scopedId: bool, vocabTerm: bool, refScope: Option<int>): string {
    Text.PyBool(scopedId) + "_" + (Text.PyBool(vocabTerm) + "_" + PyOptInt(refScope))
  }

  /** The descriptor `idmap_loader(field, inner, map_subject, map_predicate)`
      declares. */
  function IdMapTypeDef(n: Naming, field: string, inner: TypeDef, mapSubject: string,
                        mapPredicate: Option<string>): TypeDef {
    Plain("idmap_" + SafeName(n, field) + "_" + inner.name, IdMapLoader(inner.name, mapSubject, mapPredicate))
  }

  /** The descriptor `typedsl_loader(inner, ref_scope)` declares; both its
      name and its argument use the safe form of the inner loader's name. */
  function TypeDslTypeDef(n: Naming, inner: TypeDef, refScope: Option<int>): TypeDef {
    Plain("typedsl_" + SafeName(n, inner.name) + "_" + PyOptInt(refScope),
          TypeDslLoader(SafeName(n, inner.name), refScope))
  }

  /** The descriptor `secondaryfilesdsl_loader(inner)` declares. */
  function SecondaryDslTypeDef(inner: TypeDef): TypeDef {
    Plain("secondaryfilesdsl_" + inner.name, SecondaryDslLoader(inner.name))
  }

  /** A URI loader is marked as such and carries `scoped_id` and
      `ref_scope` forward for the serializer; it is never abstract, so the
      epilogue always binds it. */
  lemma UriLoaderCarriesParameters(inner: TypeDef, scopedId: bool, vocabTerm: bool, refScope: Option<int>)
    ensures var t := UriTypeDef(inner, scopedId, vocabTerm, refScope);
      t.isUri && t.scopedId == scopedId && t.refScope == refScope && !t.isAbstract
      && t.init == UriLoader(inner.name, scopedId, vocabTerm, refScope)
  {
  }

  lemma BoolFieldSplits(b1: bool, rest1: string, b2: bool, rest2: string)
    requires Text.PyBool(b1) + "_" + rest1 == Text.PyBool(b2) + "_" + rest2
    ensures b1 == b2 && rest1 == rest2
  {
    var x1, x2 := Text.PyBool(b1) + "_" + rest1, Text.PyBool(b2) + "_" + rest2;
    assert x1[0] == (if b1 then 'T' else 'F');
    assert x2[0] == (if b2 then 'T' else 'F');
    assert x1[|Text.PyBool(b1)| + 1..] == rest1;
    assert x2[|Text.PyBool(b2)| + 1..] == rest2;
  }

  lemma PrefixCancels(p: string, x: string, y: string)
    requires p + x == p + y
    ensures x == y
  {
    assert x == (p + x)[|p|..];
    assert y == (p + y)[|p|..];
  }

  /** Over one inner loader, a URI loader's name determines its parameters:
      two fields share a URI loader exactly when they wrap alike. */
  lemma {:induction false} UriNameDeterminesParameters(inner: TypeDef,
      s1: bool, v1: bool, r1: Option<int>, s2: bool, v2: bool, r2: Option<int>)
    requires UriTypeDef(inner, s1, v1, r1).name == UriTypeDef(inner, s2, v2, r2).name
    ensures s1 == s2 && v1 == v2 && r1 == r2
  {
    PrefixCancels("uri_" + inner.name + "_", UriParams(s1, v1, r1), UriParams(s2, v2, r2));
    BoolFieldSplits(s1, Text.PyBool(v1) + "_" + PyOptInt(r1), s2, Text.PyBool(v2) + "_" + PyOptInt(r2));
    BoolFieldSplits(v1, PyOptInt(r1), v2, PyOptInt(r2));
    PyOptIntInjective(r1, r2);
  }

  /** Over one inner loader, a type-DSL loader's name determines its
      reference scope. */
  lemma TypeDslNameDeterminesScope(n: Naming, inner: TypeDef, r1: Option<int>, r2: Option<int>)
    requires TypeDslTypeDef(n, inner, r1).name == TypeDslTypeDef(n, inner, r2).name
    ensures r1 == r2
  {
    var p := "typedsl_" + SafeName(n, inner.name) + "_";
    PrefixCancels(p, PyOptInt(r1), PyOptInt(r2));
    PyOptIntInjective(r1, r2);
  }

  /** A secondary-files loader's name determines its inner loader's name. */
  lemma SecondaryDslNameDeterminesInner(a: TypeDef, b: TypeDef)
    requires SecondaryDslTypeDef(a).name == SecondaryDslTypeDef(b).name
    ensures a.name == b.name
  {
    PrefixCancels("secondaryfilesdsl_", a.name, b.name);
  }

  /** An id-map loader's name determines its inner loader once the safe
      field name is fixed. */
  lemma IdMapNameDeterminesInner(n: Naming, field: string, a: TypeDef, b: TypeDef,
                                 sa: string, pa: Option<string>, sb: string, pb: Option<string>)
    requires IdMapTypeDef(n, field, a, sa, pa).name == IdMapTypeDef(n, field, b, sb, pb).name
    ensures a.name == b.name
  {
    PrefixCancels("idmap_" + SafeName(n, field) + "_", a.name, b.name);
  }

  /** The map keys are not part of an id-map loader's name: two fields
      with the same safe name and inner loader but different map keys get
      one name, and the first descriptor declared under it is the one kept. */
  lemma IdMapKeysShareName(c: Catalog, n: Naming, field: string, inner: TypeDef,
                           sa: string, pa: Option<string>, sb: string, pb: Option<string>)
    requires Valid(c)
    requires IdMapTypeDef(n, field, inner, sa, pa).name !in c.types
    ensures var a := IdMapTypeDef(n, field, inner, sa, pa);
      var b := IdMapTypeDef(n, field, inner, sb, pb);
      && a.name == b.name
      && DeclareType(DeclareType(c, a), b) == DeclareType(c, a)
      && DeclareType(DeclareType(c, a), b).types[b.name] == a
      && (sa != sb || pa != pb ==> a != b)
  {
    var a := IdMapTypeDef(n, field, inner, sa, pa);
    var b := IdMapTypeDef(n, field, inner, sb, pb);
    if sa != sb || pa != pb {
      assert a.init != b.init;
    }
  }

  /** Wrapping is deterministic and interned: wrapping the same inner loader
      the same way a second time, with any of the four wrappers, adds
      nothing to the catalog. */
  lemma WrappingTwiceAddsNothing(c: Catalog, n: Naming, inner: TypeDef, scopedId: bool, vocabTerm: bool,
                                 refScope: Option<int>, field: string, mapSubject: string,
                                 mapPredicate: Option<string>)
    ensures var once := DeclareType(c, UriTypeDef(inner, scopedId, vocabTerm, refScope));
      DeclareType(once, UriTypeDef(inner, scopedId, vocabTerm, refScope)) == once
    ensures var once := DeclareType(c, IdMapTypeDef(n, field, inner, mapSubject, mapPredicate));
      DeclareType(once, IdMapTypeDef(n, field, inner, mapSubject, mapPredicate)) == once
    ensures var once := DeclareType(c, TypeDslTypeDef(n, inner, refScope));
      DeclareType(once, TypeDslTypeDef(n, inner, refScope)) == once
    ensures var once := DeclareType(c, SecondaryDslTypeDef(inner));
      DeclareType(once, SecondaryDslTypeDef(inner)) == once
  {
  }
}
