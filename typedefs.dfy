/** Loader descriptors (`TypeDef`) and the fixed table of primitive loaders
    (schema_salad/python_codegen.py:28-52). The `init` expression of a
    descriptor is kept as a structured record of which runtime loader it
    constructs and with which arguments, not as Python text. */
module TypeDefs {
  import opened Wrappers
  import opened Text

  /** The Python types `_PrimitiveLoader` is built over. */
  datatype PyType = PyStr | PyInt | PyFloat | PyBool | PyNoneType

  /** The constructor expression of a loader: which runtime loader class,
      with which arguments (loader arguments are referenced by name). */
  datatype LoaderInit =
    | PrimitiveLoader(pyType: PyType)                     // _PrimitiveLoader(t)
    | AnyLoader                                           // _AnyLoader()
    | UnionLoader(members: seq<string>)                   // _UnionLoader((a, b, ...,))
    | ArrayLoader(items: string)                          // _ArrayLoader(i)
    | EnumLoader(symbols: seq<string>)                    // _EnumLoader(("s1", ...,))
    | RecordLoader(className: string)                     // _RecordLoader(C)
    | ExpressionLoader                                    // _ExpressionLoader(str)
    | UriLoader(inner: string, scopedId: bool, vocabTerm: bool, refScope: Option<int>)
    | IdMapLoader(inner: string, mapSubject: string, mapPredicate: Option<string>)
    | TypeDslLoader(inner: string, refScope: Option<int>)
    | SecondaryDslLoader(inner: string)

  /** A named loader: `TypeDef(name, init, is_uri, scoped_id, ref_scope, abstract)`. */
  datatype TypeDef = TypeDef(
    name: string,
    init: LoaderInit,
    isUri: bool,
    scopedId: bool,
    refScope: Option<int>,
    isAbstract: bool)

  /** `TypeDef(name, init)` with the constructor's defaults for the other
      attributes: not a URI, not scoped, reference scope 0, not abstract. */
  function Plain(name: string, init: LoaderInit): (t: TypeDef)
    ensures t.name == name && t.init == init
    ensures !t.isUri && !t.scopedId && !t.isAbstract && t.refScope == Some(0)
  {
    TypeDef(name, init, false, false, Some(0), false)
  }

  const StringTypeDef: TypeDef := Plain("strtype", PrimitiveLoader(PyStr))
  const IntTypeDef: TypeDef := Plain("inttype", PrimitiveLoader(PyInt))
  const FloatTypeDef: TypeDef := Plain("floattype", PrimitiveLoader(PyFloat))
  const BoolTypeDef: TypeDef := Plain("booltype", PrimitiveLoader(PyBool))
  const NullTypeDef: TypeDef := Plain("None_type", PrimitiveLoader(PyNoneType))
  const AnyTypeDef: TypeDef := Plain("Any_type", AnyLoader)

  const XsdPrefix: string := "http://www.w3.org/2001/XMLSchema#"
  const SaladPrefix: string := "https://w3id.org/cwl/salad#"

  /** The keys of `prims`, in the order the dict literal lists them. */
  const PrimNames: seq<string> := [
    XsdPrefix + "string", XsdPrefix + "int", XsdPrefix + "long",
    XsdPrefix + "float", XsdPrefix + "double", XsdPrefix + "boolean",
    SaladPrefix + "null", SaladPrefix + "Any",
    "string", "int", "long", "float", "double", "boolean", "null", "Any"
  ]

  /** The values of `prims`, position by position with `PrimNames`. */
  const PrimValues: seq<TypeDef> := [
    StringTypeDef, IntTypeDef, IntTypeDef, FloatTypeDef, FloatTypeDef,
    BoolTypeDef, NullTypeDef, AnyTypeDef,
    StringTypeDef, IntTypeDef, IntTypeDef, FloatTypeDef, FloatTypeDef,
    BoolTypeDef, NullTypeDef, AnyTypeDef
  ]

  /** The primitive a short name stands for. */
  function ShortPrim(local: string): Option<TypeDef> {
    if local == "string" then Some(StringTypeDef)
    else if local == "int" || local == "long" then Some(IntTypeDef)
    else if local == "float" || local == "double" then Some(FloatTypeDef)
    else if local == "boolean" then Some(BoolTypeDef)
    else if local == "null" then Some(NullTypeDef)
    else if local == "Any" then Some(AnyTypeDef)
    else None
  }

  /** Lookup in `prims`: the six XML Schema URIs, the two salad URIs and the
      eight short names. */
  function Prim(name: string): (r: Option<TypeDef>)
    ensures r.Some? ==> r.value in PrimValues
  {
    if StartsWith(name, XsdPrefix) then
      var local := name[|XsdPrefix|..];
      if local in ["string", "int", "long", "float", "double", "boolean"] then ShortPrim(local) else None
    else if StartsWith(name, SaladPrefix) then
      var local := name[|SaladPrefix|..];
      if local in ["null", "Any"] then ShortPrim(local) else None
    else ShortPrim(name)
  }

  /** `Prim` is the dict literal: each key maps to the value beside it. */
  lemma PrimMatchesTable(i: nat)
    requires i < |PrimNames|
    ensures Prim(PrimNames[i]) == Some(PrimValues[i])
  {
    if i < 6 {
      ShortNameMatchesTable(i);
      XsdSpellingAgrees(PrimNames[i + 8]);
    } else if i < 8 {
      ShortNameMatchesTable(i);
      SaladSpellingAgrees(PrimNames[i + 8]);
    } else {
      ShortNameMatchesTable(i - 8);
    }
  }

  /** `Prim` finds exactly the sixteen keys of `prims`. */
  lemma PrimDomain(name: string)
    ensures Prim(name).Some? <==> name in PrimNames
  {
    if name in PrimNames {
      var i :| 0 <= i < |PrimNames| && PrimNames[i] == name;
      PrimMatchesTable(i);
    }
    if Prim(name).Some? {
      if StartsWith(name, XsdPrefix) {
        var local := name[|XsdPrefix|..];
        assert name == XsdPrefix + local;
        XsdKeyInTable(local);
      } else if StartsWith(name, SaladPrefix) {
        var local := name[|SaladPrefix|..];
        assert name == SaladPrefix + local;
        SaladKeyInTable(local);
      } else {
        ShortKeyInTable(name);
      }
    }
  }

  lemma XsdKeyInTable(local: string)
    requires local in ["string", "int", "long", "float", "double", "boolean"]
    ensures XsdPrefix + local in PrimNames
  {
    var k := if local == "string" then 0 else if local == "int" then 1 else if local == "long" then 2
      else if local == "float" then 3 else if local == "double" then 4 else 5;
    assert PrimNames[k] == XsdPrefix + local;
  }

  lemma SaladKeyInTable(local: string)
    requires local in ["null", "Any"]
    ensures SaladPrefix + local in PrimNames
  {
    var k := if local == "null" then 6 else 7;
    assert PrimNames[k] == SaladPrefix + local;
  }

  lemma ShortKeyInTable(name: string)
    requires ShortPrim(name).Some?
    ensures name in PrimNames
  {
    var k := if name == "string" then 8 else if name == "int" then 9 else if name == "long" then 10
      else if name == "float" then 11 else if name == "double" then 12 else if name == "boolean" then 13
      else if name == "null" then 14 else 15;
    assert PrimNames[k] == name;
  }

  /** The short half of the table, and its agreement with the URI half. */
  lemma ShortNameMatchesTable(j: nat)
    requires j < 8
    ensures Prim(PrimNames[j + 8]) == Some(PrimValues[j + 8]) && PrimValues[j] == PrimValues[j + 8]
    ensures j < 6 ==> PrimNames[j] == XsdPrefix + PrimNames[j + 8]
    ensures 6 <= j ==> PrimNames[j] == SaladPrefix + PrimNames[j + 8]
  {
    ShortNameLookup(j);
    TableHalvesAgree(j);
  }

  lemma ShortNameLookup(j: nat)
    requires j < 8
    ensures Prim(PrimNames[j + 8]) == Some(PrimValues[j + 8])
  {
    var name := PrimNames[j + 8];
    assert |name| < |XsdPrefix| && |name| < |SaladPrefix|;
    assert Prim(name) == ShortPrim(name);
    if j < 2 { } else if j < 4 { } else if j < 6 { } else { }
  }

  lemma TableHalvesAgree(j: nat)
    requires j < 8
    ensures PrimValues[j] == PrimValues[j + 8]
    ensures j < 6 ==> PrimNames[j] == XsdPrefix + PrimNames[j + 8]
    ensures 6 <= j ==> PrimNames[j] == SaladPrefix + PrimNames[j + 8]
  {
  }

  /** The XML Schema URI spelling of a primitive gives the same descriptor
      as its short spelling. */
  lemma XsdSpellingAgrees(local: string)
    requires local in ["string", "int", "long", "float", "double", "boolean"]
    ensures Prim(XsdPrefix + local) == Prim(local) != None
  {
    assert (XsdPrefix + local)[..|XsdPrefix|] == XsdPrefix;
    assert (XsdPrefix + local)[|XsdPrefix|..] == local;
  }

  /** The salad URI spelling of `null` and `Any` gives the same descriptor
      as the short spelling. */
  lemma SaladSpellingAgrees(local: string)
    requires local in ["null", "Any"]
    ensures Prim(SaladPrefix + local) == Prim(local) != None
  {
    assert (SaladPrefix + local)[..|SaladPrefix|] == SaladPrefix;
    assert (SaladPrefix + local)[|SaladPrefix|..] == local;
    assert !StartsWith(SaladPrefix + local, XsdPrefix) by {
      assert (SaladPrefix + local)[4] != XsdPrefix[4];
    }
  }

  /** `long` is loaded as `int` and `double` as `float`. */
  lemma WideNumbersNarrowed()
    ensures Prim("long") == Prim("int") == Some(IntTypeDef)
    ensures Prim("double") == Prim("float") == Some(FloatTypeDef)
  {
  }

  /** No primitive loader is abstract or a URI loader. */
  lemma PrimValuesPlain()
    ensures forall t :: t in PrimValues ==> !t.isAbstract && !t.isUri
  {
  }
}
