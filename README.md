# Schema Salad Python code generator: type interning and class protocol

This project is a Dafny model of the core of `PythonCodeGen` in
`schema_salad/python_codegen.py`, the Schema Salad back end that turns a
schema into a Python parser module. It covers five parts:

- **`type_loader`.** A recursive map from a type declaration (a union list, an
  `array`/`enum`/`record` mapping, or a name) to a loader descriptor
  (`TypeDef`: name, init expression, `is_uri`, `scoped_id`, `ref_scope`,
  `abstract`). Every composite descriptor is interned through `declare_type`
  into the insertion-ordered `collected_types` table, and enum symbols are
  filed in the `vocab` table.
- **The primitive table `prims` and `safe_name`.**
- **The field wrapper loaders.** These are `uri_loader`, `idmap_loader`,
  `typedsl_loader` and `secondaryfilesdsl_loader`.
- **The per-class protocol.** This is `begin_class`, `declare_id_field`,
  `declare_field` and `end_class`, over the fields
  `current_class_is_abstract`, `idfield`, the `serializer` buffer and the
  output.
- **The `epilogue`.** It writes the `_vocab` and `_rvocab` tables, the loader
  bindings and the document loaders.

Generated code is not text here. Each block the generator writes is a
structured emission record (`Protocol.Emit`, `Protocol.SaveStmt`), so the
properties are about what is written and in which order, not about
formatting.

The layout follows the source:

- Pure parts are functions, with lemmas about them:
  - `Names` holds `safe_name`;
  - `TypeDefs` holds the descriptors and the primitive table;
  - `Catalog` holds the two tables and `declare_type`;
  - `Resolver` holds `type_loader`;
  - `FieldLoaders` holds the wrapper names;
  - `Protocol` holds the class protocol;
  - `Epilogue` holds the epilogue output.
- `Text` and `Seqs` hold the Python string renderings, `dict.fromkeys`
  de-duplication and `sorted`.
- The mutable generator is the class `Generator.PythonCodeGen`:
  - its fields are the generator's state;
  - each of its methods mirrors one method of the source, loops included;
  - each method is proved to leave exactly the state the corresponding
    function describes.

Model assumptions about code that is not part of this model:

- **`codegen_base.py` is not part of this model.**
  - `declare_type` is taken to insert a descriptor under its name unless the
    name is already present, and to return its argument.
  - `add_vocab` is taken to assign one dict entry. Its only caller in
    schema_salad/python_codegen.py, `type_loader`, always calls it as `add_vocab(shortname(sym), sym)`
    (schema_salad/python_codegen.py:369), and `AddVocab` requires exactly that.
  - `TypeDef`'s defaults are taken as `is_uri = False`, `scoped_id = False`,
    `ref_scope = 0` and `abstract = False`.
- **`schema.py` is not part of this model.** `avro_field_name` and
  `shortname` are uninterpreted functions, passed in as `Names.Naming`.
- **Exceptions.** A Python exception raised inside `type_loader` does not
  undo earlier `declare_type`/`add_vocab` calls. `Resolver.Resolve`
  therefore returns the tables after the call on the failure path too.

## Model

| member | source | states |
|---|---|---|
| Names.SafeName | schema_salad/python_codegen.py:95-103 | The result is never `class` or `in`. `class`/`anon.class` become `class_` and `in`/`anon.in` become `in_`. A name without the `anon.` prefix that is not reserved passes through unchanged. A prefixed name whose remainder is not reserved is exactly that remainder, with the five characters of `anon.` dropped. |
| Names.SafeNameDropsAnonPrefix | schema_salad/python_codegen.py:97-99 | The result lacks the `anon.` prefix whenever the Avro name does not carry it twice. |
| Names.SafeNameStripsOnce | schema_salad/python_codegen.py:97-99 | Only one prefix is stripped: `anon.anon.x` becomes `anon.x`. |
| TypeDefs.Prim | schema_salad/python_codegen.py:35-52 | A successful lookup yields one of the table's values. |
| TypeDefs.PrimDomain | schema_salad/python_codegen.py:35-52 | The lookup succeeds exactly for the sixteen keys of `prims`; every other name is not a primitive. |
| TypeDefs.PrimMatchesTable | schema_salad/python_codegen.py:35-52 | Each of the sixteen keys of `prims` maps to the value the table gives it. |
| TypeDefs.XsdSpellingAgrees | schema_salad/python_codegen.py:35-49 | An XML Schema URI and its short name map to the same descriptor. |
| TypeDefs.SaladSpellingAgrees | schema_salad/python_codegen.py:41-51 | A salad URI (`null`, `Any`) and its short name map to the same descriptor. |
| TypeDefs.WideNumbersNarrowed | schema_salad/python_codegen.py:37-48 | `long` maps to the int loader and `double` to the float loader, in both spellings. |
| TypeDefs.PrimValuesPlain | schema_salad/python_codegen.py:28-33 | No primitive descriptor is abstract or URI-valued. |
| Catalog.DeclareType | schema_salad/python_codegen.py:352-357 | `declare_type` itself is assumed (see the assumptions above); the cited lines are a call site. Interning keeps the table well formed and only grows it. The name is present afterwards. An existing name leaves the table unchanged, and a new one is appended with its descriptor. The vocabulary is untouched. |
| Catalog.DeclareTwice | schema_salad/python_codegen.py:352-357 | Under the assumed `declare_type` (the cited lines are a call site), declaring the same descriptor twice is the same as declaring it once. |
| Catalog.NameOccursOnce | schema_salad/python_codegen.py:599-602 | Under the assumed `declare_type` (the cited lines are the loop over the table), in a well-formed table each loader name occurs once in the insertion order. |
| Catalog.DeclareAll | schema_salad/python_codegen.py:138-139 | Declaring a sequence keeps the table well formed, only grows it, and files every descriptor's name. |
| Catalog.PrologueFilesEveryPrimitive | schema_salad/python_codegen.py:138-139 | After the prologue's declarations, every primitive is filed under its own name, whatever the repetitions in `prims.values()`. |
| Catalog.CoherentVocabInjective | schema_salad/python_codegen.py:368-369 | In a vocabulary that files each symbol under its short name, no two keys share a symbol. |
| Resolver.EnumVocab | schema_salad/python_codegen.py:368-369 | Every symbol's short name becomes a key. Every value is a symbol filed under its own short name. |
| Resolver.EnumVocabLastWins | schema_salad/python_codegen.py:368-369 | A later symbol overrides an earlier one with the same short name: a short name is filed with the last symbol that has it. |
| ResolverProperties.ResolveGrows | schema_salad/python_codegen.py:343-407 | `type_loader` only grows `collected_types`, on success and on failure, and keeps it well formed. |
| ResolverProperties.ResolveAllGrows | schema_salad/python_codegen.py:349-351 | The same, for the comprehension over a union's members. |
| ResolverProperties.ResolvedNameIsStructural | schema_salad/python_codegen.py:343-407 | A resolved descriptor's name is a function of the declaration's shape alone. Its descriptor is a primitive or is filed in the table under that name. |
| ResolverProperties.ResolvedNamesAreStructural | schema_salad/python_codegen.py:349-351 | The same, for each member of a union. |
| ResolverProperties.ResolveVocab | schema_salad/python_codegen.py:367-369 | On success the vocabulary becomes the old one updated with exactly the enum symbols inside the declaration. |
| ResolverProperties.ResolveAllVocab | schema_salad/python_codegen.py:349-351 | The same, for a union's members. |
| ResolverProperties.ResolveStable | schema_salad/python_codegen.py:343-407 | Resolving again in any table that already holds the first run's results gives the same descriptor. The table is left unchanged apart from the vocabulary update. |
| ResolverProperties.ResolveAllStable | schema_salad/python_codegen.py:349-351 | The same, for a union's members. |
| ResolverProperties.ResolveIdempotent | schema_salad/python_codegen.py:343-407 | Resolving a declaration a second time returns the same descriptor and leaves the tables as the first call left them. |
| ResolverProperties.ResolveKeepsVocabCoherent | schema_salad/python_codegen.py:367-369 | `type_loader` keeps every vocabulary entry filed under its symbol's short name, on failure too. |
| ResolverProperties.ResolveAllKeepsVocabCoherent | schema_salad/python_codegen.py:349-351 | The same, for a union's members. |
| ResolverProperties.ResolveAllStopsAtFailure | schema_salad/python_codegen.py:349-351 | Once a member raises, the comprehension's outcome and tables are those at that member. |
| ResolverProperties.UnionResolution | schema_salad/python_codegen.py:347-357 | A union is named `union_of_` plus its member names joined by `_or_`, and its init lists the same names. The names are duplicate-free, cover exactly the members' names, and keep first-occurrence order. |
| ResolverProperties.PrimitiveAlternatives | schema_salad/python_codegen.py:349-351 | Primitive members resolve to their table names without touching the tables. |
| ResolverProperties.PrimitivePairUnion | schema_salad/python_codegen.py:347-357 | `[string, int]` resolves to `union_of_strtype_or_inttype`. |
| ResolverProperties.UnionNameDependsOnOrder | schema_salad/python_codegen.py:349-357 | `[string, int]` and `[int, string]` give different union names. |
| ResolverProperties.UnionDropsRepeatedMembers | schema_salad/python_codegen.py:349-351 | `[string, xsd:string, int]` names a two-member union. |
| ResolverProperties.UnionDependenciesFiledFirst | schema_salad/python_codegen.py:347-357 | Once every primitive is filed, as after `prologue`, a union is declared into a catalog that already files every member loader it names, so its members come before it in insertion order. |
| ResolverProperties.ResolvedMembersFiled | schema_salad/python_codegen.py:349-351 | Once every primitive is filed, every member name the comprehension returns is filed in the catalog it leaves. |
| ResolverProperties.ResolvedLoaderFiled | schema_salad/python_codegen.py:343-407 | Once every primitive is filed, the loader a successful `type_loader` call returns is filed. |
| ResolverProperties.ArrayDependencyFiledFirst | schema_salad/python_codegen.py:359-366 | Once every primitive is filed, an array is declared into a catalog that already files its item loader. |
| ResolverProperties.PrologueFilesPrims | schema_salad/python_codegen.py:138-139 | After `prologue` every primitive loader's name is filed. |
| ResolverProperties.ArrayResolution | schema_salad/python_codegen.py:359-366 | For either `array` spelling: the array succeeds exactly when its items do. It is named `array_of_` plus the items' name, and its init wraps that name. |
| ResolverProperties.EnumResolution | schema_salad/python_codegen.py:367-380 | For either `enum` spelling, the result is `safe_name(name) + "Loader"`. Its init lists `safe_name` of each symbol in the original order. Every symbol's short name is added to the vocabulary, and each new entry maps back to the symbol. |
| ResolverProperties.RecordResolution | schema_salad/python_codegen.py:382-394 | For either `record` spelling, the result is `safe_name(name) + "Loader"` with a record init. It is abstract exactly when `abstract` is given as true. |
| ResolverProperties.UnsupportedShapeFails | schema_salad/python_codegen.py:395 | Any other `type` raises and leaves the tables unchanged. |
| ResolverProperties.PrimitiveResolution | schema_salad/python_codegen.py:397-398 | A primitive name returns its table entry without declaring anything. |
| ResolverProperties.ExpressionResolution | schema_salad/python_codegen.py:400-406 | `Expression`, in either spelling, is interned as `safe_name + "Loader"`. Its init is the expression loader over `str`. It is neither abstract nor a URI loader, and the vocabulary is untouched. |
| ResolverProperties.ScalarReferenceResolution | schema_salad/python_codegen.py:407 | Any other name is only a lookup of `safe_name + "Loader"`. It succeeds exactly when that key was declared earlier, and it never changes the tables. |
| ResolverProperties.ForwardReferenceOrder | schema_salad/python_codegen.py:382-394 | A reference fails before its record is declared and succeeds after. |
| FieldLoaders.UriLoaderCarriesParameters | schema_salad/python_codegen.py:536-553 | The URI loader is marked `is_uri`, carries `scoped_id` and `ref_scope` forward, is not abstract, and wraps the inner loader's name. |
| FieldLoaders.UriNameDeterminesParameters | schema_salad/python_codegen.py:546 | Over one inner loader, the name `uri_<inner>_<scoped_id>_<vocab_term>_<ref_scope>` determines all three parameters. |
| FieldLoaders.TypeDslNameDeterminesScope | schema_salad/python_codegen.py:569-576 | Over one inner loader, the type-DSL name determines `ref_scope`. |
| FieldLoaders.SecondaryDslNameDeterminesInner | schema_salad/python_codegen.py:578-585 | The secondary-files name determines the inner loader's name. |
| FieldLoaders.IdMapNameDeterminesInner | schema_salad/python_codegen.py:556-567 | For one field, the id-map name determines the inner loader's name. |
| FieldLoaders.IdMapKeysShareName | schema_salad/python_codegen.py:556-567 | The map subject and predicate are not part of the id-map name: two wrappings that differ only there get one name, and the catalog keeps the first descriptor. |
| FieldLoaders.WrappingTwiceAddsNothing | schema_salad/python_codegen.py:536-585 | For each of the four wrappers, wrapping the same loader the same way twice interns one entry. |
| Protocol.Group | schema_salad/python_codegen.py:171-187 | A constructor group holds exactly the fields other than `class` whose optionality matches the group. |
| Protocol.GroupAppend | schema_salad/python_codegen.py:171-172 | Grouping keeps the original `field_names` order. |
| Protocol.ConstructorParamsOrder | schema_salad/python_codegen.py:174-188 | `self` comes first and only first, and every required parameter precedes every optional one. |
| Protocol.ConstructorParamsCover | schema_salad/python_codegen.py:174-188 | Every field other than `class` gets a parameter of its own kind, under its safe name. |
| Protocol.ConstructorParamsFromFields | schema_salad/python_codegen.py:174-188 | Every parameter after `self` comes from a field other than `class`, of that field's kind. |
| Protocol.FieldInits | schema_salad/python_codegen.py:206-217 | There is one assignment per field, in field order. The `class` field gets the class name as a literal, and every other field copies the parameter named by its safe name. |
| Protocol.FieldInitsUseParams | schema_salad/python_codegen.py:206-217 | Every field `__init__` copies has a parameter to copy from, `class_` gets the class name, and every constructor parameter is copied into its field. |
| Protocol.FromDocPassesEveryParam | schema_salad/python_codegen.py:323-337 | The call `fromDoc` ends with passes exactly the constructor's parameters. |
| Protocol.WithoutClass | schema_salad/python_codegen.py:323-325 | The constructor call's fields are exactly the field names other than `class`. |
| Protocol.AbstractClassIsSilent | schema_salad/python_codegen.py:164-169 | After `begin_class` of an abstract class, which writes only its header and `pass`, every field declaration and `end_class` leaves the state unchanged. `idfield` keeps its old value. |
| Protocol.AbstractRunIsSilent | schema_salad/python_codegen.py:417-454 | Any sequence of field declarations on an abstract class changes nothing. |
| Protocol.ExpectedLoads | schema_salad/python_codegen.py:456-457 | `class` is never among the fields to load. |
| Protocol.RunLoadsAndSavesDeclaredFields | schema_salad/python_codegen.py:409-534 | For a concrete class, `fromDoc` loads exactly the declared fields other than `class`, the identifier included, in declaration order. `save` writes back exactly the fields loaded, in the same order. |
| Protocol.StepLoadsAndSaves | schema_salad/python_codegen.py:409-534 | One declaration adds its field to both lists unless its short name is `class`. |
| Protocol.BaseUrlFor | schema_salad/python_codegen.py:496-499 | The base is the `base_url` argument exactly when the field is the id field or there is none; otherwise it is the object's own safe id field. |
| Protocol.SaveFor | schema_salad/python_codegen.py:501-534 | The save block is a relative-URI save exactly when the loader is URI-valued, under the field's safe name and base. |
| Protocol.DeclaredFieldSave | schema_salad/python_codegen.py:496-534 | A declared field appends one save block. Its base follows the id-field rule. It is a URI save exactly when the loader is URI-valued, and then carries the loader's `scoped_id` and `ref_scope`. |
| Epilogue.VocabEntries | schema_salad/python_codegen.py:589-592 | There is one `_vocab` entry per key, in key order, each with that key's value. |
| Epilogue.ReverseVocabEntries | schema_salad/python_codegen.py:594-597 | There is one `_rvocab` entry per key, in key order, with key and value swapped. |
| Epilogue.VocabTableIsVocab | schema_salad/python_codegen.py:589-592 | With the sorted keys, the `_vocab` keys are strictly increasing, and the dict literal denotes exactly the vocabulary. |
| Epilogue.ReverseTableInvertsVocab | schema_salad/python_codegen.py:594-597 | For a coherent vocabulary, the `_rvocab` literal's keys are exactly the symbols, and each maps back to its short name. |
| Epilogue.LoaderBindings | schema_salad/python_codegen.py:599-602 | The loop writes only loader bindings, at most one per collected type. |
| Epilogue.EpilogueBindsConcreteLoadersOnce | schema_salad/python_codegen.py:599-602 | Every non-abstract collected loader is bound exactly once with its init, abstract ones never, and nothing else. |
| Epilogue.BindingsFollowDeclarationOrder | schema_salad/python_codegen.py:599-602 | Loaders declared later are bound after the earlier ones, so bindings follow insertion order. |
| Seqs.Dedup | schema_salad/python_codegen.py:349-351 | `dict.fromkeys` yields no duplicates and the same members. |
| Seqs.DedupKeepsFirstOccurrenceOrder | schema_salad/python_codegen.py:349-351 | Elements appear in the order of their first occurrence. |
| Seqs.SortKeys | schema_salad/python_codegen.py:590 | `sorted` yields the keys strictly increasing, each once. |
| Seqs.SortedKeysUnique | schema_salad/python_codegen.py:590-595 | There is only one such list, so both loops see the same order. |
| Generator.PythonCodeGen.constructor | schema_salad/python_codegen.py:80-92 | A new generator has empty, well-formed tables and the initial class state. |
| Generator.PythonCodeGen.Prologue | schema_salad/python_codegen.py:138-139 | The tables become those of declaring `prims.values()` in order. |
| Generator.PythonCodeGen.TypeLoader | schema_salad/python_codegen.py:343-407 | The result, or the exception, and the tables left are exactly those `Resolve` gives. Well-formed tables stay well formed and only grow. |
| Generator.PythonCodeGen.UnionLoader | schema_salad/python_codegen.py:347-357 | The list branch's loop agrees with `Resolve`, including stopping at the first failure. |
| Generator.PythonCodeGen.MappingLoader | schema_salad/python_codegen.py:358-395 | The mapping branch agrees with `Resolve`, error paths included. |
| Generator.PythonCodeGen.AddVocab | schema_salad/python_codegen.py:368-369 | Files one symbol under its own short name, which is how every call files it, and keeps the generator's invariant. |
| Generator.PythonCodeGen.AddEnumVocab | schema_salad/python_codegen.py:368-369 | The symbol loop leaves the vocabulary updated with `EnumVocab`. |
| Generator.PythonCodeGen.ScalarLoader | schema_salad/python_codegen.py:397-407 | The scalar branch agrees with `Resolve`. |
| Generator.PythonCodeGen.UriLoader | schema_salad/python_codegen.py:536-553 | It returns the URI descriptor and interns it. |
| Generator.PythonCodeGen.IdMapLoader | schema_salad/python_codegen.py:556-567 | It returns the id-map descriptor and interns it. |
| Generator.PythonCodeGen.TypeDslLoader | schema_salad/python_codegen.py:569-576 | It returns the type-DSL descriptor and interns it. |
| Generator.PythonCodeGen.SecondaryFilesDslLoader | schema_salad/python_codegen.py:578-585 | It returns the secondary-files descriptor and interns it. |
| Generator.PythonCodeGen.BeginClass | schema_salad/python_codegen.py:141-268 | The new class state is `Protocol.BeginClass` of the old one. |
| Generator.PythonCodeGen.FieldInitsOf | schema_salad/python_codegen.py:206-217 | The `field_inits` loop builds `FieldInits`. |
| Generator.PythonCodeGen.DeclareField | schema_salad/python_codegen.py:449-534 | The new class state is `Protocol.DeclareField` of the old one. |
| Generator.PythonCodeGen.DeclareIdField | schema_salad/python_codegen.py:409-447 | The new class state is `Protocol.DeclareIdField` of the old one. |
| Generator.PythonCodeGen.EndClass | schema_salad/python_codegen.py:269-341 | The new class state is `Protocol.EndClass` of the old one. |
| Generator.PythonCodeGen.Epilogue | schema_salad/python_codegen.py:587-604 | The output grows by both vocabulary tables in the unique sorted key order, then the concrete loader bindings in insertion order, then the document loaders over the root loader. |

## Left out

- Formatting through `fmt`/`black` (schema_salad/python_codegen.py:55-74) is a foreign library call. Emitted code is a sequence of records, not text.
- `prologue`'s license text, its copy of `python_codegen_support.py` read through `resource_stream`, and `parser_info` are left out as file I/O and boilerplate. Only its declaration of the primitives is modelled, so the `copyright` and `parser_info` constructor arguments are left out too.
- The literal template text of `load_document*` (schema_salad/python_codegen.py:606-673) is reduced to one record naming the root loader.
- The runtime behaviour of the generated code is outside the generator and is not modelled: blank-node minting, `ValidationException` aggregation, `expand_url` and `save_relative_uri`.
- `doc` strings are carried as given. Black's rewrapping and the trimmed `pass` in the class header are not modelled.
- `Text.Strip`, used for the URI field's short name, treats only the ASCII whitespace characters as space. Python's `str.strip` also strips other Unicode whitespace.
- The extension-field check and the error messages of `fromDoc` are one record each, carrying the attribute list and the class name.
- In `declare_id_field` the identifier assignment targets `safe_name(name + subscope)`, while its blank-node fallback and the field load use `safe_name(name)`. This is modelled as written. Whether those names agree depends on `avro_field_name`, which is not part of this model.
- The generated union name depends on member order: `type_loader` keeps first-occurrence order (`dict.fromkeys`), and `ResolverProperties.UnionNameDependsOnOrder` shows that `[string, int]` and `[int, string]` get different names.
