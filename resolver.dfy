/** Type resolution: `PythonCodeGen.type_loader`
    (schema_salad/python_codegen.py:343-407), as a function from the
    catalog before the call and a type declaration to the descriptor it
    returns (or the exception it raises) and the catalog after the call. */
module Resolver {
  import opened Wrappers
  import opened Text
  import opened Seqs
  import opened TypeDefs
  import opened Names
  import opened Catalog

  /** A type declaration as the schema loader hands it over: a list (a
      union), a mapping (only the keys `type_loader` reads: `type`, `items`,
      `name`, `symbols`, `abstract`; `None` for an absent key) or a string. */
  datatype TypeDecl =
    | UnionDecl(alternatives: seq<TypeDecl>)
    | MappingDecl(tag: Option<string>, items: Option<TypeDecl>, name: Option<string>,
                  symbols: Option<seq<string>>, isAbstract: Option<bool>)
    | ScalarDecl(typeName: string)

  /** What `type_loader` raises: `SchemaException` for an unknown `type`,
      `KeyError` from `collected_types` for an undeclared name, `KeyError`
      for a key the mapping lacks. */
  datatype ResolveError =
    | UnsupportedTypeShape(tag: string)
    | UnresolvedTypeReference(loaderName: string)
    | MissingKey(key: string)

  /** The outcome of one call and the catalog it leaves behind, on failure
      too: an exception does not undo the declarations made before it. */
  datatype Resolution = Resolution(result: Result<TypeDef, ResolveError>, catalog: Catalog)
  datatype Resolutions = Resolutions(result: Result<seq<string>, ResolveError>, catalog: Catalog)

  predicate IsArrayTag(tag: string) { tag == "array" || tag == SaladPrefix + "array" }
  predicate IsEnumTag(tag: string) { tag == "enum" || tag == SaladPrefix + "enum" }
  predicate IsRecordTag(tag: string) { tag == "record" || tag == SaladPrefix + "record" }
  predicate IsExpressionName(s: string) { s == "Expression" || s == "https://w3id.org/cwl/cwl#Expression" }

  // ----- the descriptors type_loader builds -----

  function UnionTypeDef(members: seq<string>): TypeDef {
    Plain("union_of_" + Join("_or_", members), UnionLoader(members))
  }

  function ArrayTypeDef(items: string): TypeDef {
    Plain("array_of_" + items, ArrayLoader(items))
  }

  function EnumTypeDef(n: Naming, name: string, symbols: seq<string>): TypeDef {
    Plain(SafeName(n, name) + "Loader", EnumLoader(SafeNames(n, symbols)))
  }

  function RecordTypeDef(n: Naming, name: string, isAbstract: bool): TypeDef {
    TypeDef(SafeName(n, name) + "Loader", RecordLoader(SafeName(n, name)), false, false, Some(0), isAbstract)
  }

  function ExpressionTypeDef(n: Naming, s: string): TypeDef {
    Plain(SafeName(n, s) + "Loader", ExpressionLoader)
  }

  /** The vocabulary entries `add_vocab(shortname(sym), sym)` makes for
      each symbol in turn; a later symbol overrides an earlier one with the
      same short name. */
  function EnumVocab(n: Naming, symbols: seq<string>): (v: map<string, string>)
    ensures forall i :: 0 <= i < |symbols| ==> n.shortname(symbols[i]) in v
    ensures forall k :: k in v ==> v[k] in symbols && n.shortname(v[k]) == k
  {
    if |symbols| == 0 then map[]
    else
      var last := symbols[|symbols| - 1];
      EnumVocab(n, symbols[..|symbols| - 1])[n.shortname(last) := last]
  }

  /** A later symbol overrides an earlier one with the same short name:
      each short name is filed with the last symbol that has it. */
  lemma {:induction false} EnumVocabLastWins(n: Naming, symbols: seq<string>, i: int)
    requires 0 <= i < |symbols| && LastWithShortName(n, symbols, i)
    ensures EnumVocab(n, symbols)[n.shortname(symbols[i])] == symbols[i]
    decreases |symbols|
  {
    var front, last := symbols[..|symbols| - 1], symbols[|symbols| - 1];
    if i < |front| {
      assert n.shortname(symbols[i]) != n.shortname(last);
      assert LastWithShortName(n, front, i) by {
        forall j | i < j < |front| ensures n.shortname(front[j]) != n.shortname(front[i]) {
          assert front[j] == symbols[j];
        }
      }
      EnumVocabLastWins(n, front, i);
    }
  }

  /** No symbol after position `i` shares the short name of `symbols[i]`,
      so `symbols[i]` is the one `add_vocab` leaves filed under it. */
  ghost predicate LastWithShortName(n: Naming, symbols: seq<string>, i: int)
    requires 0 <= i < |symbols|
  {
    forall j :: i < j < |symbols| ==> n.shortname(symbols[j]) != n.shortname(symbols[i])
  }

  // ----- type_loader -----

  function Resolve(n: Naming, c: Catalog, d: TypeDecl): (res: Resolution)
    decreases d
  {
    match d
    case UnionDecl(alts) =>
      var all := ResolveAll(n, c, alts);
      if all.result.Failure? then Resolution(Failure(all.result.error), all.catalog)
      else
        var t := UnionTypeDef(Dedup(all.result.value));
        Resolution(Success(t), DeclareType(all.catalog, t))
    case MappingDecl(tag, items, name, symbols, isAbstract) =>
      if tag.None? then Resolution(Failure(MissingKey("type")), c)
      else if IsArrayTag(tag.value) then
        if items.None? then Resolution(Failure(MissingKey("items")), c)
        else
          var inner := Resolve(n, c, items.value);
          if inner.result.Failure? then inner
          else
            var t := ArrayTypeDef(inner.result.value.name);
            Resolution(Success(t), DeclareType(inner.catalog, t))
      else if IsEnumTag(tag.value) then
        if symbols.None? then Resolution(Failure(MissingKey("symbols")), c)
        else
          var c1 := c.(vocab := c.vocab + EnumVocab(n, symbols.value));
          if name.None? then Resolution(Failure(MissingKey("name")), c1)
          else
            var t := EnumTypeDef(n, name.value, symbols.value);
            Resolution(Success(t), DeclareType(c1, t))
      else if IsRecordTag(tag.value) then
        if name.None? then Resolution(Failure(MissingKey("name")), c)
        else
          var t := RecordTypeDef(n, name.value, isAbstract.GetOr(false));
          Resolution(Success(t), DeclareType(c, t))
      else Resolution(Failure(UnsupportedTypeShape(tag.value)), c)
    case ScalarDecl(s) =>
      if Prim(s).Some? then Resolution(Success(Prim(s).value), c)
      else if IsExpressionName(s) then
        var t := ExpressionTypeDef(n, s);
        Resolution(Success(t), DeclareType(c, t))
      else
        var key := SafeName(n, s) + "Loader";
        if key in c.types then Resolution(Success(c.types[key]), c)
        else Resolution(Failure(UnresolvedTypeReference(key)), c)
  }

  /** `[self.type_loader(i).name for i in alts]`, stopping at the first
      exception. */
  function ResolveAll(n: Naming, c: Catalog, alts: seq<TypeDecl>): (res: Resolutions)
    decreases alts
  {
    if |alts| == 0 then Resolutions(Success([]), c)
    else
      var init := ResolveAll(n, c, alts[..|alts| - 1]);
      if init.result.Failure? then init
      else
        var last := Resolve(n, init.catalog, alts[|alts| - 1]);
        if last.result.Failure? then Resolutions(Failure(last.result.error), last.catalog)
        else Resolutions(Success(init.result.value + [last.result.value.name]), last.catalog)
  }
}
