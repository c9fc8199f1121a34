/** The generator's symbol tables, inherited from `CodeGenBase`:
    `collected_types`, an insertion-ordered dict from loader name to
    `TypeDef`, and `vocab`, a dict from short symbol name to symbol URI.
    `codegen_base.py` is not part of this model: `declare_type` is taken to
    insert a descriptor under its name unless that name is already present,
    and `add_vocab` to assign one dict entry. */
module Catalog {
  import opened TypeDefs
  import opened Seqs
  import opened Names

  /** `collected_types` as its key order plus its contents, and `vocab`. */
  datatype Catalog = Catalog(order: seq<string>, types: map<string, TypeDef>, vocab: map<string, string>)

  const Empty: Catalog := Catalog([], map[], map[])

  /** The insertion order lists each key of `types` once, and each
      descriptor is filed under its own name. */
  ghost predicate Valid(c: Catalog) {
    && NoDup(c.order)
    && (forall k :: k in c.types <==> k in c.order)
    && (forall k :: k in c.types ==> c.types[k].name == k)
  }

  /** Every vocabulary entry maps a symbol's short name to the symbol, as
      `add_vocab(shortname(sym), sym)` files it. */
  ghost predicate VocabCoherent(n: Naming, vocab: map<string, string>) {
    forall k :: k in vocab ==> n.shortname(vocab[k]) == k
  }

  /** In a coherent vocabulary no two keys share a symbol. */
  lemma CoherentVocabInjective(n: Naming, vocab: map<string, string>, a: string, b: string)
    requires VocabCoherent(n, vocab) && a in vocab && b in vocab && vocab[a] == vocab[b]
    ensures a == b
  {
  }

  /** `d` grows `c`: existing entries keep their place and their value. */
  ghost predicate Extends(c: Catalog, d: Catalog) {
    && |c.order| <= |d.order| && d.order[..|c.order|] == c.order
    && (forall k :: k in c.types ==> k in d.types && d.types[k] == c.types[k])
  }

  lemma EmptyValid()
    ensures Valid(Empty)
  {
  }

  lemma ExtendsTransitive(a: Catalog, b: Catalog, c: Catalog)
    requires Extends(a, b) && Extends(b, c)
    ensures Extends(a, c)
  {
    assert c.order[..|a.order|] == c.order[..|b.order|][..|a.order|];
  }

  /** `declare_type(t)`: files `t` under its name unless the name is taken. */
  function DeclareType(c: Catalog, t: TypeDef): (r: Catalog)
    ensures Valid(c) ==> Valid(r)
    ensures Extends(c, r) && r.vocab == c.vocab
    ensures t.name in r.types && r.types.Keys == c.types.Keys + {t.name}
    ensures t.name in c.types ==> r == c
    ensures t.name !in c.types ==> r.types[t.name] == t && |r.order| == |c.order| + 1
  {
    if t.name in c.types then c
    else c.(order := c.order + [t.name], types := c.types[t.name := t])
  }

  /** Interning is idempotent: declaring the same descriptor twice leaves
      one entry, in the place of the first declaration. */
  lemma DeclareTwice(c: Catalog, t: TypeDef)
    ensures DeclareType(DeclareType(c, t), t) == DeclareType(c, t)
  {
  }

  /** In a valid catalog each loader name occurs once in the emission order. */
  lemma {:induction false} NameOccursOnce(c: Catalog, i: nat, j: nat)
    requires Valid(c) && i < |c.order| && j < |c.order|
    requires c.types[c.order[i]].name == c.types[c.order[j]].name
    ensures i == j
  {
    assert c.order[i] in c.types && c.order[j] in c.types;
  }

  /** `declare_type` applied to each descriptor of `ts` in turn. */
  function DeclareAll(c: Catalog, ts: seq<TypeDef>): (r: Catalog)
    ensures Valid(c) ==> Valid(r)
    ensures Extends(c, r) && r.vocab == c.vocab
    ensures forall t :: t in ts ==> t.name in r.types
  {
    if |ts| == 0 then c
    else
      var p := DeclareAll(c, ts[..|ts| - 1]);
      var r := DeclareType(p, ts[|ts| - 1]);
      ExtendsTransitive(c, p, r);
      assert forall t :: t in ts ==> t in ts[..|ts| - 1] || t == ts[|ts| - 1];
      r
  }

  /** When equal names mean equal descriptors, declaring them all files
      each one under its name, whatever the order and the repetitions. */
  lemma {:induction false} DeclareAllFilesEach(c: Catalog, ts: seq<TypeDef>)
    requires forall a, b :: a in ts && b in ts && a.name == b.name ==> a == b
    requires forall t :: t in ts && t.name in c.types ==> c.types[t.name] == t
    ensures forall t :: t in ts ==> DeclareAll(c, ts).types[t.name] == t
    decreases |ts|
  {
    if |ts| > 0 {
      var front := ts[..|ts| - 1];
      DeclareAllFilesEach(c, front);
      var p := DeclareAll(c, front);
      var last := ts[|ts| - 1];
      forall t | t in ts ensures DeclareAll(c, ts).types[t.name] == t {
        if t.name == last.name {
          assert t == last;
          if last.name in p.types {
            if last.name in c.types {
            } else {
              var u :| u in front && u.name == last.name by {
                DeclaredNameFrom(c, front, last.name);
              }
              assert u == last;
            }
          }
        } else {
          assert t in front;
        }
      }
    }
  }

  /** A name `DeclareAll` adds comes from one of its descriptors. */
  lemma {:induction false} DeclaredNameFrom(c: Catalog, ts: seq<TypeDef>, k: string)
    requires k in DeclareAll(c, ts).types && k !in c.types
    ensures exists t :: t in ts && t.name == k
    decreases |ts|
  {
    if |ts| > 0 {
      var front := ts[..|ts| - 1];
      if k in DeclareAll(c, front).types {
        DeclaredNameFrom(c, front, k);
        var t :| t in front && t.name == k;
        assert t in ts;
      } else {
        assert ts[|ts| - 1] in ts;
      }
    }
  }

  /** The primitive descriptors are told apart by their names. */
  lemma PrimNamesDistinguish()
    ensures forall a, b :: a in PrimValues && b in PrimValues && a.name == b.name ==> a == b
  {
    forall i | 0 <= i < |PrimValues| ensures PrimValues[i] == PrimByInitial(PrimValues[i].name[0]) {
      PrimAtIndex(i);
    }
    forall a, b | a in PrimValues && b in PrimValues && a.name == b.name ensures a == b {
      var i :| 0 <= i < |PrimValues| && PrimValues[i] == a;
      var j :| 0 <= j < |PrimValues| && PrimValues[j] == b;
    }
  }

  /** The primitive whose loader name starts with `c`: the six names
      `strtype`, `inttype`, `floattype`, `booltype`, `None_type` and
      `Any_type` start with six different characters. */
  function PrimByInitial(c: char): TypeDef {
    if c == 's' then StringTypeDef
    else if c == 'i' then IntTypeDef
    else if c == 'f' then FloatTypeDef
    else if c == 'b' then BoolTypeDef
    else if c == 'N' then NullTypeDef
    else AnyTypeDef
  }

  lemma PrimAtIndex(i: nat)
    requires i < |PrimValues|
    ensures |PrimValues[i].name| > 0 && PrimValues[i] == PrimByInitial(PrimValues[i].name[0])
  {
    var j := if i < 8 then i else i - 8;
    assert PrimValues[i] == PrimValues[j];
    if j == 0 { } else if j < 3 { } else if j < 5 { } else if j == 5 { } else if j == 6 { } else { }
  }

  /** After `prologue`, every primitive is filed under its own name, so a
      primitive resolved by `type_loader` is always one the output binds. */
  lemma PrologueFilesEveryPrimitive(c: Catalog)
    requires forall t :: t in PrimValues && t.name in c.types ==> c.types[t.name] == t
    ensures forall t :: t in PrimValues ==> DeclareAll(c, PrimValues).types[t.name] == t
  {
    PrimNamesDistinguish();
    DeclareAllFilesEach(c, PrimValues);
  }
}
