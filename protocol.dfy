/** The per-class generation protocol of `PythonCodeGen`
    (schema_salad/python_codegen.py:141-341, 409-534): `begin_class`,
    `declare_id_field`, `declare_field` and `end_class`, as functions on the
    generator's class state. Generated code is represented by structured
    emission records, one per block the generator writes, never as text. */
module Protocol {
  import opened Wrappers
  import opened Text
  import opened TypeDefs
  import opened Names

  /** One parameter of the generated `__init__`. */
  datatype Param = SelfParam | RequiredParam(name: string) | OptionalParam(name: string)

  /** One assignment in the generated `__init__` body: `self.class_` is set
      to the class name, every other field to its parameter. */
  datatype FieldInit = ClassLiteral(className: string) | CopyParam(safeName: string)

  /** The base URL a field is saved relative to. */
  datatype BaseUrl = BaseUrlArgument | OwnIdField(safeIdField: string)

  /** What the generated `fromDoc` does when the identifier is absent and
      there is no document root: mint a blank node, or raise. */
  datatype IdDefault = BlankNode(safeName: string) | MissingIdentifier(fieldName: string)

  /** The blocks of the generated `save` method. */
  datatype SaveStmt =
    | SaveExtensionFields
    | SaveClassName(className: string)
    | SaveUriField(safeName: string, fieldName: string, base: BaseUrl, scopedId: bool, refScope: Option<int>)
    | SaveValueField(safeName: string, fieldName: string, base: BaseUrl)
    | SaveTopLevelNamespaces
    | SaveReturn
    | SaveAttrs(fieldNames: seq<string>)

  /** The blocks the generator writes to its output. */
  datatype Emit =
    | ClassHeader(className: string, bases: seq<string>)
    | ClassDoc(doc: string)
    | AbstractBody
    | Constructor(params: seq<Param>, inits: seq<FieldInit>)
    | FromDocHeader(className: string)
    | ClassCheck(className: string)
    | LoadField(safeName: string, fieldName: string, loaderName: string, optional: bool)
    | IdAssignment(safeName: string, ifMissing: IdDefault)
    | ExtensionFieldCheck(attrs: seq<string>, className: string)
    | ConstructInstance(args: seq<string>)
    | SerializerBody(stmts: seq<SaveStmt>)
    | VocabEntry(key: string, value: string)
    | ReverseVocabEntry(value: string, key: string)
    | LoaderBinding(name: string, init: LoaderInit)
    | DocumentLoaders(rootLoader: string)

  /** The fields the protocol reads and writes: `current_class_is_abstract`,
      `idfield`, the `serializer` buffer and the output. */
  datatype GenState = GenState(isAbstract: bool, idfield: string, serializer: seq<SaveStmt>, out: seq<Emit>)

  /** The state `__init__` sets up. */
  const Initial: GenState := GenState(false, "", [], [])

  // ----- constructor parameters -----

  /** One group of constructor parameters: the field names other than
      `class` whose membership in `optionalFields` is `optional`, in their
      original order. */
  function Group(fieldNames: seq<string>, optionalFields: set<string>, optional: bool): (r: seq<string>)
    ensures forall f :: f in r <==> f in fieldNames && f != "class" && (f in optionalFields <==> optional)
    ensures |r| <= |fieldNames|
  {
    if |fieldNames| == 0 then []
    else
      var rest := Group(fieldNames[..|fieldNames| - 1], optionalFields, optional);
      var f := fieldNames[|fieldNames| - 1];
      if f != "class" && (f in optionalFields <==> optional) then rest + [f] else rest
  }

  /** Filtering keeps the original order: the group of a concatenation is
      the concatenation of the groups. */
  lemma {:induction false} GroupAppend(a: seq<string>, b: seq<string>, optionalFields: set<string>, optional: bool)
    ensures Group(a + b, optionalFields, optional) == Group(a, optionalFields, optional) + Group(b, optionalFields, optional)
    decreases |b|
  {
    if |b| > 0 {
      var b' := b[..|b| - 1];
      assert (a + b)[..|a + b| - 1] == a + b';
      GroupAppend(a, b', optionalFields, optional);
    } else {
      assert a + b == a;
    }
  }

  /** `[f for f in field_names if f != "class"]`. */
  function WithoutClass(fieldNames: seq<string>): (r: seq<string>)
    ensures forall f :: f in r <==> f in fieldNames && f != "class"
  {
    if |fieldNames| == 0 then []
    else
      var rest := WithoutClass(fieldNames[..|fieldNames| - 1]);
      var f := fieldNames[|fieldNames| - 1];
      if f != "class" then rest + [f] else rest
  }

  /** One group's parameters, each under the field's safe name. */
  function GroupParams(n: Naming, group: seq<string>, optional: bool): (r: seq<Param>)
    ensures |r| == |group|
    ensures forall i :: 0 <= i < |r| ==>
      r[i] == (if optional then OptionalParam(SafeName(n, group[i])) else RequiredParam(SafeName(n, group[i])))
  {
    seq(|group|, i requires 0 <= i < |group| =>
      if optional then OptionalParam(SafeName(n, group[i])) else RequiredParam(SafeName(n, group[i])))
  }

  /** The parameters of the generated `__init__` (besides the trailing
      `extension_fields` and `loadingOptions`). */
  function ConstructorParams(n: Naming, fieldNames: seq<string>, optionalFields: set<string>): seq<Param> {
    [SelfParam]
      + GroupParams(n, Group(fieldNames, optionalFields, false), false)
      + GroupParams(n, Group(fieldNames, optionalFields, true), true)
  }

  /** `self` comes first and only first, and every required parameter
      comes before every optional one. */
  lemma ConstructorParamsOrder(n: Naming, fieldNames: seq<string>, optionalFields: set<string>)
    ensures var r := ConstructorParams(n, fieldNames, optionalFields);
      && r[0] == SelfParam
      && (forall i :: 0 < i < |r| ==> !r[i].SelfParam?)
      && (forall i, j :: 0 <= i < j < |r| && r[i].OptionalParam? ==> r[j].OptionalParam?)
  {
    var req := GroupParams(n, Group(fieldNames, optionalFields, false), false);
    var opt := GroupParams(n, Group(fieldNames, optionalFields, true), true);
    var r := ConstructorParams(n, fieldNames, optionalFields);
    assert r == [SelfParam] + req + opt;
    forall i | 0 < i < |r| ensures !r[i].SelfParam? && (r[i].OptionalParam? <==> i > |req|) {
      if i <= |req| {
        assert r[i] == req[i - 1];
      } else {
        assert r[i] == opt[i - 1 - |req|];
      }
    }
  }

  /** Each field other than `class` gets a parameter of its kind. */
  lemma ConstructorParamsCover(n: Naming, fieldNames: seq<string>, optionalFields: set<string>, f: string)
    requires f in fieldNames && f != "class"
    ensures var r := ConstructorParams(n, fieldNames, optionalFields);
      (if f in optionalFields then OptionalParam(SafeName(n, f)) else RequiredParam(SafeName(n, f))) in r
  {
    var reqs := Group(fieldNames, optionalFields, false);
    var opts := Group(fieldNames, optionalFields, true);
    var req := GroupParams(n, reqs, false);
    var r := ConstructorParams(n, fieldNames, optionalFields);
    if f in optionalFields {
      var k :| 0 <= k < |opts| && opts[k] == f;
      assert r[1 + |req| + k] == GroupParams(n, opts, true)[k];
    } else {
      var k :| 0 <= k < |reqs| && reqs[k] == f;
      assert r[1 + k] == req[k];
    }
  }

  /** Every parameter after `self` comes from a field other than `class`,
      and is optional exactly when that field is. */
  lemma ConstructorParamsFromFields(n: Naming, fieldNames: seq<string>, optionalFields: set<string>, i: nat)
    requires 0 < i < |ConstructorParams(n, fieldNames, optionalFields)|
    ensures var p := ConstructorParams(n, fieldNames, optionalFields)[i];
      exists f :: f in fieldNames && f != "class" && (p.OptionalParam? <==> f in optionalFields)
        && p == (if f in optionalFields then OptionalParam(SafeName(n, f)) else RequiredParam(SafeName(n, f)))
  {
    var reqs := Group(fieldNames, optionalFields, false);
    var opts := Group(fieldNames, optionalFields, true);
    var req := GroupParams(n, reqs, false);
    var r := ConstructorParams(n, fieldNames, optionalFields);
    if i <= |req| {
      assert r[i] == req[i - 1];
      assert reqs[i - 1] in reqs;
    } else {
      assert r[i] == GroupParams(n, opts, true)[i - 1 - |req|];
      assert opts[i - 1 - |req|] in opts;
    }
  }

  /** The `field_inits` block `begin_class` builds, one entry per field
      name in its original order. */
  function FieldInits(n: Naming, className: string, fieldNames: seq<string>): (r: seq<FieldInit>)
    ensures |r| == |fieldNames|
    ensures forall i :: 0 <= i < |r| ==> (r[i].ClassLiteral? <==> fieldNames[i] == "class")
    ensures forall i :: 0 <= i < |r| && fieldNames[i] == "class" ==> r[i] == ClassLiteral(className)
    ensures forall i :: 0 <= i < |r| && fieldNames[i] != "class" ==> r[i] == CopyParam(SafeName(n, fieldNames[i]))
  {
    seq(|fieldNames|, i requires 0 <= i < |fieldNames| =>
      if fieldNames[i] == "class" then ClassLiteral(className) else CopyParam(SafeName(n, fieldNames[i])))
  }

  /** Every field the generated `__init__` copies has a parameter to copy
      from, `class_` is set to the class name itself, and every parameter
      is copied into its field. */
  lemma FieldInitsUseParams(n: Naming, className: string, fieldNames: seq<string>, optionalFields: set<string>)
    ensures var params := ConstructorParams(n, fieldNames, optionalFields);
      forall e :: e in FieldInits(n, className, fieldNames) ==>
        match e
        case ClassLiteral(c) => c == className
        case CopyParam(x) => RequiredParam(x) in params || OptionalParam(x) in params
    ensures var params := ConstructorParams(n, fieldNames, optionalFields);
      forall x :: RequiredParam(x) in params || OptionalParam(x) in params ==>
        CopyParam(x) in FieldInits(n, className, fieldNames)
  {
    forall x | var params := ConstructorParams(n, fieldNames, optionalFields);
        RequiredParam(x) in params || OptionalParam(x) in params
      ensures CopyParam(x) in FieldInits(n, className, fieldNames)
    {
      ParamIsCopied(n, className, fieldNames, optionalFields, x);
    }
    var inits := FieldInits(n, className, fieldNames);
    forall e | e in inits && e.CopyParam?
      ensures var params := ConstructorParams(n, fieldNames, optionalFields);
        RequiredParam(e.safeName) in params || OptionalParam(e.safeName) in params
    {
      var i :| 0 <= i < |inits| && inits[i] == e;
      ConstructorParamsCover(n, fieldNames, optionalFields, fieldNames[i]);
    }
  }

  lemma ParamIsCopied(n: Naming, className: string, fieldNames: seq<string>, optionalFields: set<string>, x: string)
    requires var params := ConstructorParams(n, fieldNames, optionalFields);
      RequiredParam(x) in params || OptionalParam(x) in params
    ensures CopyParam(x) in FieldInits(n, className, fieldNames)
  {
    ParamIsPassedArg(n, fieldNames, optionalFields, x);
    var fs := WithoutClass(fieldNames);
    var args := SafeNames(n, fs);
    var j :| 0 <= j < |args| && args[j] == x;
    assert fs[j] in fs;
    var i :| 0 <= i < |fieldNames| && fieldNames[i] == fs[j];
    var inits := FieldInits(n, className, fieldNames);
    assert inits[i] == CopyParam(x);
  }

  // ----- the four protocol operations -----

  /** The class header and docstring `begin_class` writes first. */
  function Header(n: Naming, classname: string, bases: seq<string>, doc: string): seq<Emit> {
    [ClassHeader(SafeName(n, classname), if |bases| == 0 then ["Savable"] else SafeNames(n, bases))]
      + (if doc != "" then [ClassDoc(doc)] else [])
  }

  /** `begin_class`: an abstract class gets a `pass` body and nothing else,
      and leaves `idfield` as it was; a concrete one gets its constructor,
      the head of `fromDoc` and, when it has a `class` field, the check of
      that field, while the serializer is restarted. */
  function BeginClass(n: Naming, st: GenState, classname: string, bases: seq<string>, doc: string,
                      isAbstract: bool, fieldNames: seq<string>, idfield: string,
                      optionalFields: set<string>): GenState
  {
    var cn := SafeName(n, classname);
    var header := Header(n, classname, bases, doc);
    if isAbstract then GenState(true, st.idfield, [], st.out + header + [AbstractBody])
    else
      var hasClass := "class" in fieldNames;
      GenState(false, idfield,
        [SaveExtensionFields] + (if hasClass then [SaveClassName(cn)] else []),
        st.out + header
          + [Constructor(ConstructorParams(n, fieldNames, optionalFields), FieldInits(n, cn, fieldNames)),
             FromDocHeader(cn)]
          + (if hasClass then [ClassCheck(cn)] else []))
  }

  /** The base URL `declare_field` saves a field relative to. */
  function BaseUrlFor(n: Naming, name: string, idfield: string): (r: BaseUrl)
    ensures r == BaseUrlArgument <==> name == idfield || idfield == ""
    ensures r.OwnIdField? ==> r.safeIdField == SafeName(n, idfield)
  {
    if name == idfield || idfield == "" then BaseUrlArgument else OwnIdField(SafeName(n, idfield))
  }

  /** The `save` block for one field: URI-valued fields are made relative
      with the loader's `scoped_id` and `ref_scope`, the others are saved
      recursively. */
  function SaveFor(n: Naming, name: string, fieldtype: TypeDef, base: BaseUrl): (r: SaveStmt)
    ensures r.SaveUriField? <==> fieldtype.isUri
    ensures r.SaveUriField? || r.SaveValueField?
    ensures r.safeName == SafeName(n, name) && r.base == base
  {
    if fieldtype.isUri then
      SaveUriField(SafeName(n, name), Strip(n.shortname(name)), base, fieldtype.scopedId, fieldtype.refScope)
    else SaveValueField(SafeName(n, name), n.shortname(name), base)
  }

  /** `declare_field`: nothing for an abstract class or for the `class`
      field; otherwise a load of the field and its `save` block. */
  function DeclareField(n: Naming, st: GenState, name: string, fieldtype: TypeDef, optional: bool): GenState {
    if st.isAbstract || n.shortname(name) == "class" then st
    else
      st.(out := st.out + [LoadField(SafeName(n, name), n.shortname(name), fieldtype.name, optional)],
          serializer := st.serializer + [SaveFor(n, name, fieldtype, BaseUrlFor(n, name, st.idfield))])
  }

  /** `declare_id_field`: the field is declared as optional, then the
      identifier assignment follows; its target takes the subscope into
      account, its fallback does not. */
  function DeclareIdField(n: Naming, st: GenState, name: string, fieldtype: TypeDef, optional: bool,
                          subscope: Option<string>): GenState {
    if st.isAbstract then st
    else
      var s1 := DeclareField(n, st, name, fieldtype, true);
      var ifMissing := if optional then BlankNode(SafeName(n, name)) else MissingIdentifier(n.shortname(name));
      var target := if subscope.Some? then name + subscope.value else name;
      s1.(out := s1.out + [IdAssignment(SafeName(n, target), ifMissing)])
  }

  /** The blocks `end_class` appends to the serializer. */
  function SaveTail(fieldNames: seq<string>): seq<SaveStmt> {
    [SaveTopLevelNamespaces, SaveReturn, SaveAttrs(fieldNames)]
  }

  /** `end_class`: nothing for an abstract class; otherwise the extension
      field check, the constructor call and the finished serializer. */
  function EndClass(n: Naming, st: GenState, classname: string, fieldNames: seq<string>): GenState {
    if st.isAbstract then st
    else
      var ser := st.serializer + SaveTail(fieldNames);
      st.(serializer := ser,
          out := st.out + [ExtensionFieldCheck(fieldNames, SafeName(n, classname)),
                           ConstructInstance(SafeNames(n, WithoutClass(fieldNames))),
                           SerializerBody(ser)])
  }

  /** The constructor call `fromDoc` ends with passes exactly the
      constructor's parameters (besides `self`). */
  lemma FromDocPassesEveryParam(n: Naming, fieldNames: seq<string>, optionalFields: set<string>, x: string)
    ensures var params := ConstructorParams(n, fieldNames, optionalFields);
      x in SafeNames(n, WithoutClass(fieldNames)) <==> RequiredParam(x) in params || OptionalParam(x) in params
  {
    if x in SafeNames(n, WithoutClass(fieldNames)) {
      PassedArgIsParam(n, fieldNames, optionalFields, x);
    }
    var params := ConstructorParams(n, fieldNames, optionalFields);
    if RequiredParam(x) in params || OptionalParam(x) in params {
      ParamIsPassedArg(n, fieldNames, optionalFields, x);
    }
  }

  lemma PassedArgIsParam(n: Naming, fieldNames: seq<string>, optionalFields: set<string>, x: string)
    requires x in SafeNames(n, WithoutClass(fieldNames))
    ensures var params := ConstructorParams(n, fieldNames, optionalFields);
      RequiredParam(x) in params || OptionalParam(x) in params
  {
    var fs := WithoutClass(fieldNames);
    var args := SafeNames(n, fs);
    var i :| 0 <= i < |args| && args[i] == x;
    assert fs[i] in fs;
    ConstructorParamsCover(n, fieldNames, optionalFields, fs[i]);
  }

  lemma ParamIsPassedArg(n: Naming, fieldNames: seq<string>, optionalFields: set<string>, x: string)
    requires var params := ConstructorParams(n, fieldNames, optionalFields);
      RequiredParam(x) in params || OptionalParam(x) in params
    ensures x in SafeNames(n, WithoutClass(fieldNames))
  {
    var params := ConstructorParams(n, fieldNames, optionalFields);
    var fs := WithoutClass(fieldNames);
    var args := SafeNames(n, fs);
    var i :| 0 <= i < |params| && (params[i] == RequiredParam(x) || params[i] == OptionalParam(x));
    assert params[0] == SelfParam;
    ConstructorParamsFromFields(n, fieldNames, optionalFields, i);
    var p := params[i];
    var f :| f in fieldNames && f != "class"
      && p == (if f in optionalFields then OptionalParam(SafeName(n, f)) else RequiredParam(SafeName(n, f)));
    assert SafeName(n, f) == x;
    assert f in fs;
    var j :| 0 <= j < |fs| && fs[j] == f;
    assert args[j] == x;
  }

  // ----- field declarations as a trace -----

  /** A field declaration between `begin_class` and `end_class`. */
  datatype FieldEvent =
    | Field(name: string, fieldtype: TypeDef, optional: bool)
    | IdField(name: string, fieldtype: TypeDef, optional: bool, subscope: Option<string>)

  function Step(n: Naming, st: GenState, e: FieldEvent): GenState {
    match e
    case Field(name, t, opt) => DeclareField(n, st, name, t, opt)
    case IdField(name, t, opt, sub) => DeclareIdField(n, st, name, t, opt, sub)
  }

  /** The state after declaring the fields `evs` in turn. */
  function Run(n: Naming, st: GenState, evs: seq<FieldEvent>): GenState {
    if |evs| == 0 then st else Step(n, Run(n, st, evs[..|evs| - 1]), evs[|evs| - 1])
  }

  /** Once `begin_class` has marked the class abstract, every later step
      of the protocol, up to and including `end_class`, leaves the state
      (the output included) unchanged. */
  lemma {:induction false} AbstractClassIsSilent(n: Naming, st: GenState, classname: string, bases: seq<string>,
                                                 doc: string, fieldNames: seq<string>, idfield: string,
                                                 optionalFields: set<string>, evs: seq<FieldEvent>)
    ensures var s0 := BeginClass(n, st, classname, bases, doc, true, fieldNames, idfield, optionalFields);
      && s0.out == st.out + Header(n, classname, bases, doc) + [AbstractBody]
      && s0.idfield == st.idfield
      && EndClass(n, Run(n, s0, evs), classname, fieldNames) == s0
  {
    var s0 := BeginClass(n, st, classname, bases, doc, true, fieldNames, idfield, optionalFields);
    AbstractRunIsSilent(n, s0, evs);
  }

  lemma {:induction false} AbstractRunIsSilent(n: Naming, st: GenState, evs: seq<FieldEvent>)
    requires st.isAbstract
    ensures Run(n, st, evs) == st
    decreases |evs|
  {
    if |evs| > 0 {
      AbstractRunIsSilent(n, st, evs[..|evs| - 1]);
    }
  }

  /** The short names of the fields `fromDoc` loads, in output order. */
  function Loaded(out: seq<Emit>): seq<string> {
    if |out| == 0 then []
    else
      var e := out[|out| - 1];
      Loaded(out[..|out| - 1]) + (if e.LoadField? then [e.fieldName] else [])
  }

  /** The safe names of the fields `fromDoc` loads, in output order. */
  function LoadedSafe(out: seq<Emit>): seq<string> {
    if |out| == 0 then []
    else
      var e := out[|out| - 1];
      LoadedSafe(out[..|out| - 1]) + (if e.LoadField? then [e.safeName] else [])
  }

  /** The safe names of the fields `save` writes, in serializer order. */
  function Saved(ser: seq<SaveStmt>): seq<string> {
    if |ser| == 0 then []
    else
      var s := ser[|ser| - 1];
      Saved(ser[..|ser| - 1]) + (if s.SaveUriField? || s.SaveValueField? then [s.safeName] else [])
  }

  lemma {:induction false} LoadedAppend(a: seq<Emit>, b: seq<Emit>)
    ensures Loaded(a + b) == Loaded(a) + Loaded(b)
    ensures LoadedSafe(a + b) == LoadedSafe(a) + LoadedSafe(b)
    decreases |b|
  {
    if |b| == 0 {
      assert a + b == a;
    } else {
      assert (a + b)[..|a + b| - 1] == a + b[..|b| - 1];
      LoadedAppend(a, b[..|b| - 1]);
    }
  }

  lemma {:induction false} SavedAppend(a: seq<SaveStmt>, b: seq<SaveStmt>)
    ensures Saved(a + b) == Saved(a) + Saved(b)
    decreases |b|
  {
    if |b| == 0 {
      assert a + b == a;
    } else {
      assert (a + b)[..|a + b| - 1] == a + b[..|b| - 1];
      SavedAppend(a, b[..|b| - 1]);
    }
  }

  /** The short names the declarations `evs` should load: every declared
      field, the identifier included, except the `class` field. */
  function ExpectedLoads(n: Naming, evs: seq<FieldEvent>): (r: seq<string>)
    ensures "class" !in r
    ensures |r| <= |evs|
  {
    if |evs| == 0 then []
    else
      var s := n.shortname(evs[|evs| - 1].name);
      ExpectedLoads(n, evs[..|evs| - 1]) + (if s != "class" then [s] else [])
  }

  /** The safe names of the same fields. */
  function ExpectedSafe(n: Naming, evs: seq<FieldEvent>): (r: seq<string>)
    ensures |r| == |ExpectedLoads(n, evs)|
  {
    if |evs| == 0 then []
    else
      var e := evs[|evs| - 1];
      ExpectedSafe(n, evs[..|evs| - 1]) + (if n.shortname(e.name) != "class" then [SafeName(n, e.name)] else [])
  }

  /** For a concrete class, `fromDoc` loads exactly the declared fields
      other than `class`, in declaration order, and `save` writes back
      exactly the fields `fromDoc` loaded, in the same order. */
  lemma {:induction false} RunLoadsAndSavesDeclaredFields(n: Naming, st: GenState, evs: seq<FieldEvent>)
    requires !st.isAbstract
    ensures var r := Run(n, st, evs);
      && !r.isAbstract && r.idfield == st.idfield
      && Loaded(r.out) == Loaded(st.out) + ExpectedLoads(n, evs)
      && LoadedSafe(r.out) == LoadedSafe(st.out) + ExpectedSafe(n, evs)
      && Saved(r.serializer) == Saved(st.serializer) + ExpectedSafe(n, evs)
    decreases |evs|
  {
    if |evs| > 0 {
      var evs', e := evs[..|evs| - 1], evs[|evs| - 1];
      var p := Run(n, st, evs');
      RunLoadsAndSavesDeclaredFields(n, st, evs');
      StepLoadsAndSaves(n, p, e);
      var add := if n.shortname(e.name) != "class" then [n.shortname(e.name)] else [];
      var addSafe := if n.shortname(e.name) != "class" then [SafeName(n, e.name)] else [];
      assert Run(n, st, evs) == Step(n, p, e);
      assert ExpectedLoads(n, evs) == ExpectedLoads(n, evs') + add;
      assert ExpectedSafe(n, evs) == ExpectedSafe(n, evs') + addSafe;
      ConcatAssoc(Loaded(st.out), ExpectedLoads(n, evs'), add);
      ConcatAssoc(LoadedSafe(st.out), ExpectedSafe(n, evs'), addSafe);
      ConcatAssoc(Saved(st.serializer), ExpectedSafe(n, evs'), addSafe);
    }
  }

  lemma ConcatAssoc(a: seq<string>, b: seq<string>, c: seq<string>)
    ensures a + b + c == a + (b + c)
  {
  }

  /** One declaration adds its field to both lists, unless it is the
      `class` field. */
  lemma StepLoadsAndSaves(n: Naming, p: GenState, e: FieldEvent)
    requires !p.isAbstract
    ensures var r := Step(n, p, e);
      var add := if n.shortname(e.name) != "class" then [n.shortname(e.name)] else [];
      var addSafe := if n.shortname(e.name) != "class" then [SafeName(n, e.name)] else [];
      && !r.isAbstract && r.idfield == p.idfield
      && Loaded(r.out) == Loaded(p.out) + add
      && LoadedSafe(r.out) == LoadedSafe(p.out) + addSafe
      && Saved(r.serializer) == Saved(p.serializer) + addSafe
  {
    var optional := if e.Field? then e.optional else true;
    var f := DeclareField(n, p, e.name, e.fieldtype, optional);
    if n.shortname(e.name) != "class" {
      LoadedAppend(p.out, [LoadField(SafeName(n, e.name), n.shortname(e.name), e.fieldtype.name, optional)]);
      SavedAppend(p.serializer, [SaveFor(n, e.name, e.fieldtype, BaseUrlFor(n, e.name, p.idfield))]);
    }
    if e.IdField? {
      var target := if e.subscope.Some? then e.name + e.subscope.value else e.name;
      var ifMissing := if e.optional then BlankNode(SafeName(n, e.name)) else MissingIdentifier(n.shortname(e.name));
      LoadedAppend(f.out, [IdAssignment(SafeName(n, target), ifMissing)]);
    }
  }

  /** The `save` block of a declared field: it is saved relative to the
      `base_url` argument when it is the identifier or the class has none,
      relative to the object's own identifier otherwise; a URI-valued field
      is made relative using the `scoped_id` and `ref_scope` its loader
      carries. */
  lemma DeclaredFieldSave(n: Naming, st: GenState, name: string, fieldtype: TypeDef, optional: bool)
    requires !st.isAbstract && n.shortname(name) != "class"
    ensures var r := DeclareField(n, st, name, fieldtype, optional);
      && |r.serializer| == |st.serializer| + 1
      && r.serializer[..|st.serializer|] == st.serializer
      && var s := r.serializer[|st.serializer|];
      && (s.base == BaseUrlArgument <==> name == st.idfield || st.idfield == "")
      && (s.base.OwnIdField? ==> s.base.safeIdField == SafeName(n, st.idfield))
      && (s.SaveUriField? <==> fieldtype.isUri)
      && (s.SaveUriField? ==> s.scopedId == fieldtype.scopedId && s.refScope == fieldtype.refScope)
  {
    var r := DeclareField(n, st, name, fieldtype, optional);
    assert r.serializer[..|st.serializer|] == st.serializer;
  }
}
