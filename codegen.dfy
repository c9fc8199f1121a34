/** `PythonCodeGen` (schema_salad/python_codegen.py:77-604) as a class whose
    fields are the generator's mutable state: the symbol tables it inherits
    from `CodeGenBase`, the class-protocol fields and the output, which
    holds emission records. Each method is proved to leave the state that
    the corresponding function of `Resolver`, `FieldLoaders`, `Protocol` or
    `Epilogue` describes. */
module Generator {
  import opened Wrappers
  import opened Seqs
  import opened TypeDefs
  import opened Names
  import opened Cat = Catalog
  import opened Resolver
  import opened ResolverProperties
  import opened FieldLoaders
  import opened Protocol
  import opened Epilogue

  class PythonCodeGen {
    /** `schema.avro_field_name` and `schema.shortname`. */
    const naming: Naming
    /** `collected_types`: its key order and its contents. */
    var collectedOrder: seq<string>
    var collectedTypes: map<string, TypeDef>
    var vocab: map<string, string>
    var currentClassIsAbstract: bool
    var idfield: string
    var serializer: seq<SaveStmt>
    var out: seq<Emit>

    /** The symbol tables as a `Catalog` value. */
    function Tables(): Cat.Catalog
      reads this
    {
      Cat.Catalog(collectedOrder, collectedTypes, vocab)
    }

    /** The class-protocol fields and the output as a `GenState` value. */
    function ClassState(): GenState
      reads this
    {
      GenState(currentClassIsAbstract, idfield, serializer, out)
    }

    /** What every method keeps: a well-formed table of loaders, and a
        vocabulary filing each symbol under its short name. */
    ghost predicate Valid()
      reads this
    {
      Cat.Valid(Tables()) && VocabCoherent(naming, vocab)
    }

    constructor(naming: Naming)
      ensures this.naming == naming
      ensures Tables() == Empty && ClassState() == Initial
      ensures Valid()
    {
      this.naming := naming;
      collectedOrder := [];
      collectedTypes := map[];
      vocab := map[];
      currentClassIsAbstract := false;
      idfield := "";
      serializer := [];
      out := [];
    }

    // ----- the tables inherited from CodeGenBase -----

    /** `declare_type`, taken to insert under the descriptor's name unless
        the name is present, and to return its argument. */
    method DeclareType(t: TypeDef) returns (r: TypeDef)
      modifies this`collectedOrder, this`collectedTypes
      ensures r == t
      ensures Tables() == Cat.DeclareType(old(Tables()), t)
    {
      if t.name !in collectedTypes {
        collectedOrder := collectedOrder + [t.name];
        collectedTypes := collectedTypes[t.name := t];
      }
      r := t;
    }

    /** `add_vocab`, taken to assign one entry. The generator only ever
        files a symbol under its own short name. */
    method AddVocab(key: string, value: string)
      requires naming.shortname(value) == key
      modifies this`vocab
      ensures vocab == old(vocab)[key := value]
      ensures old(Valid()) ==> Valid()
    {
      vocab := vocab[key := value];
    }

    /** `prologue`, without its text: it declares every value of the
        primitive table, in the table's order. */
    method Prologue()
      modifies this`collectedOrder, this`collectedTypes
      ensures Tables() == DeclareAll(old(Tables()), PrimValues)
    {
      DeclareEach(PrimValues);
    }

    /** `declare_type` for each descriptor of `ts` in turn. */
    method DeclareEach(ts: seq<TypeDef>)
      modifies this`collectedOrder, this`collectedTypes
      ensures Tables() == DeclareAll(old(Tables()), ts)
    {
      var i := 0;
      while i < |ts|
        invariant 0 <= i <= |ts|
        invariant Tables() == DeclareAll(old(Tables()), ts[..i])
      {
        assert ts[..i + 1][..i] == ts[..i];
        assert DeclareAll(old(Tables()), ts[..i + 1]) == Cat.DeclareType(DeclareAll(old(Tables()), ts[..i]), ts[i]);
        var _ := DeclareType(ts[i]);
        i := i + 1;
      }
      assert ts[..i] == ts;
    }

    // ----- type_loader -----

    /** `type_loader`: the result, or the exception, and the tables it
        leaves are those `Resolve` describes; the tables only grow and stay
        well formed. */
    method TypeLoader(decl: TypeDecl) returns (r: Result<TypeDef, ResolveError>)
      modifies this`collectedOrder, this`collectedTypes, this`vocab
      ensures Resolution(r, Tables()) == Resolve(naming, old(Tables()), decl)
      ensures old(Valid()) ==> Valid() && Extends(old(Tables()), Tables())
      decreases decl, 2
    {
      ResolveGrows(naming, Tables(), decl);
      if VocabCoherent(naming, vocab) {
        ResolveKeepsVocabCoherent(naming, Tables(), decl);
      }
      match decl
      case UnionDecl(_) =>
        r := UnionLoader(decl);
      case MappingDecl(_, _, _, _, _) =>
        r := MappingLoader(decl);
      case ScalarDecl(s) =>
        r := ScalarLoader(s);
    }

    /** The list branch of `type_loader`. */
    method UnionLoader(decl: TypeDecl) returns (r: Result<TypeDef, ResolveError>)
      requires decl.UnionDecl?
      modifies this`collectedOrder, this`collectedTypes, this`vocab
      ensures Resolution(r, Tables()) == Resolve(naming, old(Tables()), decl)
      decreases decl, 1
    {
      var alts := decl.alternatives;
      var names: seq<string> := [];
      var i := 0;
      while i < |alts|
        invariant 0 <= i <= |alts|
        invariant ResolveAll(naming, old(Tables()), alts[..i]) == Resolutions(Success(names), Tables())
      {
        assert alts[..i + 1][..i] == alts[..i];
        assert alts[i] in decl.alternatives;
        var t := TypeLoader(alts[i]);
        if t.Failure? {
          ResolveAllStopsAtFailure(naming, old(Tables()), alts, i + 1);
          return Failure(t.error);
        }
        names := names + [t.value.name];
        i := i + 1;
      }
      assert alts[..i] == alts;
      var t := DeclareType(UnionTypeDef(Dedup(names)));
      r := Success(t);
    }

    /** The mapping branch of `type_loader`. */
    method MappingLoader(decl: TypeDecl) returns (r: Result<TypeDef, ResolveError>)
      requires decl.MappingDecl?
      modifies this`collectedOrder, this`collectedTypes, this`vocab
      ensures Resolution(r, Tables()) == Resolve(naming, old(Tables()), decl)
      decreases decl, 1
    {
      var tag, name := decl.tag, decl.name;
      if tag.None? {
        return Failure(MissingKey("type"));
      }
      if IsArrayTag(tag.value) {
        if decl.items.None? {
          return Failure(MissingKey("items"));
        }
        var inner := TypeLoader(decl.items.value);
        if inner.Failure? {
          return inner;
        }
        var t := DeclareType(ArrayTypeDef(inner.value.name));
        return Success(t);
      }
      if IsEnumTag(tag.value) {
        if decl.symbols.None? {
          return Failure(MissingKey("symbols"));
        }
        AddEnumVocab(decl.symbols.value);
        if name.None? {
          return Failure(MissingKey("name"));
        }
        var t := DeclareType(EnumTypeDef(naming, name.value, decl.symbols.value));
        return Success(t);
      }
      if IsRecordTag(tag.value) {
        if name.None? {
          return Failure(MissingKey("name"));
        }
        var t := DeclareType(RecordTypeDef(naming, name.value, decl.isAbstract.GetOr(false)));
        return Success(t);
      }
      return Failure(UnsupportedTypeShape(tag.value));
    }

    /** `add_vocab(shortname(sym), sym)` for each enum symbol in turn. */
    method AddEnumVocab(syms: seq<string>)
      modifies this`vocab
      ensures vocab == old(vocab) + EnumVocab(naming, syms)
    {
      var i := 0;
      while i < |syms|
        invariant 0 <= i <= |syms|
        invariant vocab == old(vocab) + EnumVocab(naming, syms[..i])
      {
        assert syms[..i + 1][..i] == syms[..i];
        MapUnionUpdate(old(vocab), EnumVocab(naming, syms[..i]), naming.shortname(syms[i]), syms[i]);
        AddVocab(naming.shortname(syms[i]), syms[i]);
        i := i + 1;
      }
      assert syms[..i] == syms;
    }

    /** The scalar branch of `type_loader`. */
    method ScalarLoader(s: string) returns (r: Result<TypeDef, ResolveError>)
      modifies this`collectedOrder, this`collectedTypes
      ensures Resolution(r, Tables()) == Resolve(naming, old(Tables()), ScalarDecl(s))
    {
      var p := Prim(s);
      if p.Some? {
        return Success(p.value);
      }
      if IsExpressionName(s) {
        var t := DeclareType(ExpressionTypeDef(naming, s));
        return Success(t);
      }
      var key := SafeName(naming, s) + "Loader";
      if key in collectedTypes {
        return Success(collectedTypes[key]);
      }
      return Failure(UnresolvedTypeReference(key));
    }

    // ----- the field-level wrapper loaders -----

    /** `uri_loader`. */
    method UriLoader(inner: TypeDef, scopedId: bool, vocabTerm: bool, refScope: Option<int>) returns (r: TypeDef)
      modifies this`collectedOrder, this`collectedTypes
      ensures r == UriTypeDef(inner, scopedId, vocabTerm, refScope)
      ensures Tables() == Cat.DeclareType(old(Tables()), r)
    {
      r := DeclareType(UriTypeDef(inner, scopedId, vocabTerm, refScope));
    }

    /** `idmap_loader`. */
    method IdMapLoader(field: string, inner: TypeDef, mapSubject: string, mapPredicate: Option<string>)
      returns (r: TypeDef)
      modifies this`collectedOrder, this`collectedTypes
      ensures r == IdMapTypeDef(naming, field, inner, mapSubject, mapPredicate)
      ensures Tables() == Cat.DeclareType(old(Tables()), r)
    {
      r := DeclareType(IdMapTypeDef(naming, field, inner, mapSubject, mapPredicate));
    }

    /** `typedsl_loader`. */
    method TypeDslLoader(inner: TypeDef, refScope: Option<int>) returns (r: TypeDef)
      modifies this`collectedOrder, this`collectedTypes
      ensures r == TypeDslTypeDef(naming, inner, refScope)
      ensures Tables() == Cat.DeclareType(old(Tables()), r)
    {
      r := DeclareType(TypeDslTypeDef(naming, inner, refScope));
    }

    /** `secondaryfilesdsl_loader`. */
    method SecondaryFilesDslLoader(inner: TypeDef) returns (r: TypeDef)
      modifies this`collectedOrder, this`collectedTypes
      ensures r == SecondaryDslTypeDef(inner)
      ensures Tables() == Cat.DeclareType(old(Tables()), r)
    {
      r := DeclareType(SecondaryDslTypeDef(inner));
    }

    // ----- the class protocol -----

    /** `begin_class`. */
    method BeginClass(classname: string, bases: seq<string>, doc: string, isAbstract: bool,
                      fieldNames: seq<string>, idfield: string, optionalFields: set<string>)
      modifies this`currentClassIsAbstract, this`idfield, this`serializer, this`out
      ensures ClassState() ==
        Protocol.BeginClass(naming, old(ClassState()), classname, bases, doc, isAbstract, fieldNames, idfield, optionalFields)
    {
      var cn := SafeName(naming, classname);
      out := out + Header(naming, classname, bases, doc);
      serializer := [];
      currentClassIsAbstract := isAbstract;
      if currentClassIsAbstract {
        out := out + [AbstractBody];
        return;
      }
      var params := ConstructorParams(naming, fieldNames, optionalFields);
      var inits := FieldInitsOf(cn, fieldNames);
      out := out + [Constructor(params, inits), FromDocHeader(cn)];
      this.idfield := idfield;
      serializer := serializer + [SaveExtensionFields];
      if "class" in fieldNames {
        out := out + [ClassCheck(cn)];
        serializer := serializer + [SaveClassName(cn)];
      }
    }

    /** The `field_inits` loop of `begin_class`. */
    method FieldInitsOf(cn: string, fieldNames: seq<string>) returns (inits: seq<FieldInit>)
      ensures inits == FieldInits(naming, cn, fieldNames)
    {
      inits := [];
      var i := 0;
      while i < |fieldNames|
        invariant 0 <= i <= |fieldNames|
        invariant |inits| == i
        invariant forall j :: 0 <= j < i ==> inits[j] == FieldInits(naming, cn, fieldNames)[j]
      {
        if fieldNames[i] == "class" {
          inits := inits + [ClassLiteral(cn)];
        } else {
          inits := inits + [CopyParam(SafeName(naming, fieldNames[i]))];
        }
        i := i + 1;
      }
    }

    /** `declare_field`. */
    method DeclareField(name: string, fieldtype: TypeDef, optional: bool)
      modifies this`serializer, this`out
      ensures ClassState() == Protocol.DeclareField(naming, old(ClassState()), name, fieldtype, optional)
    {
      if currentClassIsAbstract {
        return;
      }
      if naming.shortname(name) == "class" {
        return;
      }
      out := out + [LoadField(SafeName(naming, name), naming.shortname(name), fieldtype.name, optional)];
      var base := if name == idfield || idfield == "" then BaseUrlArgument else OwnIdField(SafeName(naming, idfield));
      if fieldtype.isUri {
        serializer := serializer + [SaveUriField(SafeName(naming, name), Text.Strip(naming.shortname(name)), base,
                                                 fieldtype.scopedId, fieldtype.refScope)];
      } else {
        serializer := serializer + [SaveValueField(SafeName(naming, name), naming.shortname(name), base)];
      }
    }

    /** `declare_id_field`. */
    method DeclareIdField(name: string, fieldtype: TypeDef, optional: bool, subscope: Option<string>)
      modifies this`serializer, this`out
      ensures ClassState() == Protocol.DeclareIdField(naming, old(ClassState()), name, fieldtype, optional, subscope)
    {
      if currentClassIsAbstract {
        return;
      }
      DeclareField(name, fieldtype, true);
      var ifMissing := if optional then BlankNode(SafeName(naming, name)) else MissingIdentifier(naming.shortname(name));
      var target := name;
      if subscope.Some? {
        target := name + subscope.value;
      }
      out := out + [IdAssignment(SafeName(naming, target), ifMissing)];
    }

    /** `end_class`. */
    method EndClass(classname: string, fieldNames: seq<string>)
      modifies this`serializer, this`out
      ensures ClassState() == Protocol.EndClass(naming, old(ClassState()), classname, fieldNames)
    {
      if currentClassIsAbstract {
        return;
      }
      out := out + [ExtensionFieldCheck(fieldNames, SafeName(naming, classname))];
      serializer := serializer + SaveTail(fieldNames);
      out := out + [ConstructInstance(SafeNames(naming, WithoutClass(fieldNames))), SerializerBody(serializer)];
    }

    // ----- epilogue -----

    /** `epilogue`: both vocabulary tables in sorted key order, then the
        bindings of the concrete loaders, then the document loaders. */
    method Epilogue(root: TypeDef)
      requires Valid()
      modifies this`out
      ensures exists ks :: SortedKeys(ks, vocab.Keys) && out == old(out) + EpilogueEmits(ks, Tables(), root)
    {
      var ks := SortKeys(vocab.Keys);
      WriteEpilogue(ks, root);
    }

    /** The epilogue's output for the sorted key list `ks`. */
    method WriteEpilogue(ks: seq<string>, root: TypeDef)
      requires forall k :: k in ks ==> k in vocab
      requires forall k :: k in collectedOrder ==> k in collectedTypes
      modifies this`out
      ensures out == old(out) + EpilogueEmits(ks, Tables(), root)
    {
      ghost var vs, rs, bs := VocabEntries(ks, vocab), ReverseVocabEntries(ks, vocab),
        LoaderBindings(collectedOrder, collectedTypes);
      ghost var o0 := out;
      WriteVocab(ks);
      WriteReverseVocab(ks);
      WriteLoaderBindings();
      out := out + [DocumentLoaders(root.name)];
      assert out == o0 + vs + rs + bs + [DocumentLoaders(root.name)];
      AppendAssoc(o0, vs, rs, bs, [DocumentLoaders(root.name)]);
    }

    /** The `_vocab` loop. */
    method WriteVocab(ks: seq<string>)
      requires forall k :: k in ks ==> k in vocab
      modifies this`out
      ensures out == old(out) + VocabEntries(ks, vocab)
    {
      var i := 0;
      while i < |ks|
        invariant 0 <= i <= |ks|
        invariant out == old(out) + VocabEntries(ks[..i], vocab)
      {
        assert ks[..i + 1][..i] == ks[..i];
        out := out + [VocabEntry(ks[i], vocab[ks[i]])];
        i := i + 1;
      }
      assert ks[..i] == ks;
    }

    /** The `_rvocab` loop. */
    method WriteReverseVocab(ks: seq<string>)
      requires forall k :: k in ks ==> k in vocab
      modifies this`out
      ensures out == old(out) + ReverseVocabEntries(ks, vocab)
    {
      var i := 0;
      while i < |ks|
        invariant 0 <= i <= |ks|
        invariant out == old(out) + ReverseVocabEntries(ks[..i], vocab)
      {
        assert ks[..i + 1][..i] == ks[..i];
        out := out + [ReverseVocabEntry(vocab[ks[i]], ks[i])];
        i := i + 1;
      }
      assert ks[..i] == ks;
    }

    /** The loop over `collected_types`. */
    method WriteLoaderBindings()
      requires forall k :: k in collectedOrder ==> k in collectedTypes
      modifies this`out
      ensures out == old(out) + LoaderBindings(collectedOrder, collectedTypes)
    {
      var i := 0;
      while i < |collectedOrder|
        invariant 0 <= i <= |collectedOrder|
        invariant out == old(out) + LoaderBindings(collectedOrder[..i], collectedTypes)
      {
        assert collectedOrder[..i + 1][..i] == collectedOrder[..i];
        var t := collectedTypes[collectedOrder[i]];
        if !t.isAbstract {
          out := out + [LoaderBinding(t.name, t.init)];
        }
        i := i + 1;
      }
      assert collectedOrder[..i] == collectedOrder;
    }
  }

  lemma AppendAssoc(a: seq<Emit>, b: seq<Emit>, c: seq<Emit>, d: seq<Emit>, e: seq<Emit>)
    ensures a + b + c + d + e == a + (b + c + d + e)
  {
  }
}
