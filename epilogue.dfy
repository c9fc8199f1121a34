/** What `PythonCodeGen.epilogue` (schema_salad/python_codegen.py:587-604)
    writes: the `_vocab` table in sorted key order, the `_rvocab` table with
    the same entries reversed, one binding per concrete collected loader in
    declaration order, and the `load_document*` functions over the root
    loader. */
module Epilogue {
  import opened Text
  import opened Seqs
  import opened TypeDefs
  import opened Names
  import opened Catalog
  import opened Protocol

  /** The `_vocab` entries for the keys `ks`, in that order. */
  function VocabEntries(ks: seq<string>, vocab: map<string, string>): (r: seq<Emit>)
    requires forall k :: k in ks ==> k in vocab
    ensures |r| == |ks|
    ensures forall i :: 0 <= i < |r| ==> r[i] == VocabEntry(ks[i], vocab[ks[i]])
  {
    if |ks| == 0 then []
    else VocabEntries(ks[..|ks| - 1], vocab) + [VocabEntry(ks[|ks| - 1], vocab[ks[|ks| - 1]])]
  }

  /** The `_rvocab` entries for the keys `ks`, in that order. */
  function ReverseVocabEntries(ks: seq<string>, vocab: map<string, string>): (r: seq<Emit>)
    requires forall k :: k in ks ==> k in vocab
    ensures |r| == |ks|
    ensures forall i :: 0 <= i < |r| ==> r[i] == ReverseVocabEntry(vocab[ks[i]], ks[i])
  {
    if |ks| == 0 then []
    else ReverseVocabEntries(ks[..|ks| - 1], vocab) + [ReverseVocabEntry(vocab[ks[|ks| - 1]], ks[|ks| - 1])]
  }

  /** The bindings `name = init` for the collected loaders that are not
      abstract, in declaration order. */
  function LoaderBindings(order: seq<string>, types: map<string, TypeDef>): (r: seq<Emit>)
    requires forall k :: k in order ==> k in types
    ensures |r| <= |order|
    ensures forall e :: e in r ==> e.LoaderBinding?
  {
    if |order| == 0 then []
    else
      var t := types[order[|order| - 1]];
      LoaderBindings(order[..|order| - 1], types) + (if !t.isAbstract then [LoaderBinding(t.name, t.init)] else [])
  }

  /** Everything the epilogue writes, given the sorted vocabulary keys. */
  function EpilogueEmits(ks: seq<string>, c: Catalog, root: TypeDef): seq<Emit>
    requires forall k :: k in ks ==> k in c.vocab
    requires forall k :: k in c.order ==> k in c.types
  {
    VocabEntries(ks, c.vocab) + ReverseVocabEntries(ks, c.vocab)
      + LoaderBindings(c.order, c.types) + [DocumentLoaders(root.name)]
  }

  // ----- the tables read back as Python dict literals -----

  /** The dict a run of `_vocab` entries denotes: a later entry overrides
      an earlier one with the same key. */
  function VocabDict(es: seq<Emit>): map<string, string> {
    if |es| == 0 then map[]
    else
      var e := es[|es| - 1];
      var d := VocabDict(es[..|es| - 1]);
      if e.VocabEntry? then d[e.key := e.value] else d
  }

  /** The dict a run of `_rvocab` entries denotes. */
  function ReverseDict(es: seq<Emit>): map<string, string> {
    if |es| == 0 then map[]
    else
      var e := es[|es| - 1];
      var d := ReverseDict(es[..|es| - 1]);
      if e.ReverseVocabEntry? then d[e.value := e.key] else d
  }

  lemma {:induction false} VocabDictOfEntries(ks: seq<string>, vocab: map<string, string>)
    requires forall k :: k in ks ==> k in vocab
    ensures forall k :: k in VocabDict(VocabEntries(ks, vocab)) <==> k in ks
    ensures forall k :: k in ks ==> VocabDict(VocabEntries(ks, vocab))[k] == vocab[k]
    decreases |ks|
  {
    if |ks| > 0 {
      var front := ks[..|ks| - 1];
      VocabDictOfEntries(front, vocab);
      var es := VocabEntries(ks, vocab);
      assert es[..|es| - 1] == VocabEntries(front, vocab);
      assert forall k :: k in ks <==> k in front || k == ks[|ks| - 1];
    }
  }

  /** The `_vocab` table, in sorted key order, denotes exactly the
      generator's vocabulary. */
  lemma VocabTableIsVocab(ks: seq<string>, vocab: map<string, string>)
    requires SortedKeys(ks, vocab.Keys)
    ensures forall i, j :: 0 <= i < j < |ks| ==>
      LexLess(VocabEntries(ks, vocab)[i].key, VocabEntries(ks, vocab)[j].key)
    ensures VocabDict(VocabEntries(ks, vocab)) == vocab
  {
    VocabTableSorted(ks, vocab);
    assert forall k :: k in ks <==> k in vocab;
    VocabTableDenotes(ks, vocab);
  }

  lemma VocabTableSorted(ks: seq<string>, vocab: map<string, string>)
    requires SortedKeys(ks, vocab.Keys)
    ensures forall i, j :: 0 <= i < j < |ks| ==>
      LexLess(VocabEntries(ks, vocab)[i].key, VocabEntries(ks, vocab)[j].key)
  {
    var es := VocabEntries(ks, vocab);
    forall i, j | 0 <= i < j < |ks| ensures LexLess(es[i].key, es[j].key) {
      assert es[i].key == ks[i] && es[j].key == ks[j];
    }
  }

  lemma VocabTableDenotes(ks: seq<string>, vocab: map<string, string>)
    requires forall k :: k in ks <==> k in vocab
    ensures VocabDict(VocabEntries(ks, vocab)) == vocab
  {
    VocabDictOfEntries(ks, vocab);
    var d := VocabDict(VocabEntries(ks, vocab));
    assert d.Keys == vocab.Keys;
    assert forall k :: k in d ==> d[k] == vocab[k];
  }

  lemma {:induction false} ReverseDictOfEntries(n: Naming, ks: seq<string>, vocab: map<string, string>)
    requires forall k :: k in ks ==> k in vocab
    requires VocabCoherent(n, vocab)
    ensures forall v :: v in ReverseDict(ReverseVocabEntries(ks, vocab)) ==>
      exists k :: k in ks && vocab[k] == v
    ensures forall k :: k in ks ==>
      vocab[k] in ReverseDict(ReverseVocabEntries(ks, vocab)) && ReverseDict(ReverseVocabEntries(ks, vocab))[vocab[k]] == k
  {
    ReverseDictDomain(ks, vocab);
    ReverseDictValues(n, ks, vocab);
  }

  lemma {:induction false} ReverseDictDomain(ks: seq<string>, vocab: map<string, string>)
    requires forall k :: k in ks ==> k in vocab
    ensures forall v :: v in ReverseDict(ReverseVocabEntries(ks, vocab)) ==>
      exists k :: k in ks && vocab[k] == v
    decreases |ks|
  {
    if |ks| > 0 {
      var front, last := ks[..|ks| - 1], ks[|ks| - 1];
      ReverseDictDomain(front, vocab);
      var es := ReverseVocabEntries(ks, vocab);
      assert es[..|es| - 1] == ReverseVocabEntries(front, vocab);
      var d := ReverseDict(ReverseVocabEntries(front, vocab));
      assert ReverseDict(es) == d[vocab[last] := last];
      forall v | v in ReverseDict(es) ensures exists k :: k in ks && vocab[k] == v {
        if v == vocab[last] {
          assert last in ks;
        } else {
          assert v in d;
          var k :| k in front && vocab[k] == v;
          assert k in ks;
        }
      }
    }
  }

  lemma {:induction false} ReverseDictValues(n: Naming, ks: seq<string>, vocab: map<string, string>)
    requires forall k :: k in ks ==> k in vocab
    requires VocabCoherent(n, vocab)
    ensures forall k :: k in ks ==>
      vocab[k] in ReverseDict(ReverseVocabEntries(ks, vocab)) && ReverseDict(ReverseVocabEntries(ks, vocab))[vocab[k]] == k
    decreases |ks|
  {
    if |ks| > 0 {
      var front, last := ks[..|ks| - 1], ks[|ks| - 1];
      ReverseDictValues(n, front, vocab);
      var es := ReverseVocabEntries(ks, vocab);
      assert es[..|es| - 1] == ReverseVocabEntries(front, vocab);
      var d := ReverseDict(ReverseVocabEntries(front, vocab));
      assert ReverseDict(es) == d[vocab[last] := last];
      forall k | k in ks
        ensures vocab[k] in ReverseDict(es) && ReverseDict(es)[vocab[k]] == k
      {
        if k != last {
          assert k in front;
          if vocab[k] == vocab[last] {
            CoherentVocabInjective(n, vocab, k, last);
          }
        }
      }
    }
  }

  /** With a coherent vocabulary, the `_rvocab` table denotes the exact
      inverse of `_vocab`: its keys are the vocabulary's symbols, and each
      maps back to its short name. */
  lemma ReverseTableInvertsVocab(n: Naming, ks: seq<string>, vocab: map<string, string>)
    requires SortedKeys(ks, vocab.Keys)
    requires VocabCoherent(n, vocab)
    ensures var rd := ReverseDict(ReverseVocabEntries(ks, vocab));
      && rd.Keys == vocab.Values
      && (forall k :: k in vocab ==> rd[vocab[k]] == k)
  {
    ReverseDictOfEntries(n, ks, vocab);
  }

  // ----- loader bindings -----

  lemma {:induction false} LoaderBindingsAppend(a: seq<string>, b: seq<string>, types: map<string, TypeDef>)
    requires forall k :: k in a + b ==> k in types
    ensures LoaderBindings(a + b, types) == LoaderBindings(a, types) + LoaderBindings(b, types)
    decreases |b|
  {
    if |b| == 0 {
      assert a + b == a;
    } else {
      assert (a + b)[..|a + b| - 1] == a + b[..|b| - 1];
      LoaderBindingsAppend(a, b[..|b| - 1], types);
    }
  }

  /** The bound names, in output order. */
  function BoundNames(es: seq<Emit>): (r: seq<string>)
    requires forall e :: e in es ==> e.LoaderBinding?
    ensures |r| == |es|
    ensures forall i :: 0 <= i < |r| ==> r[i] == es[i].name
  {
    seq(|es|, i requires 0 <= i < |es| => es[i].name)
  }

  lemma {:induction false} LoaderBindingsMembers(c: Catalog, order: seq<string>)
    requires Valid(c)
    requires forall k :: k in order ==> k in c.types
    ensures forall e :: e in LoaderBindings(order, c.types) ==>
      e.name in order && !c.types[e.name].isAbstract && e.init == c.types[e.name].init
    ensures forall k :: k in order && !c.types[k].isAbstract ==>
      LoaderBinding(k, c.types[k].init) in LoaderBindings(order, c.types)
    decreases |order|
  {
    if |order| > 0 {
      LoaderBindingsMembers(c, order[..|order| - 1]);
      assert forall k :: k in order <==> k in order[..|order| - 1] || k == order[|order| - 1];
    }
  }

  lemma {:induction false} LoaderBindingsDistinct(c: Catalog, order: seq<string>)
    requires Valid(c) && NoDup(order)
    requires forall k :: k in order ==> k in c.types
    ensures NoDup(BoundNames(LoaderBindings(order, c.types)))
    decreases |order|
  {
    if |order| > 0 {
      var front := order[..|order| - 1];
      LoaderBindingsDistinct(c, front);
      LoaderBindingsMembers(c, front);
      var bs := LoaderBindings(front, c.types);
      var last := order[|order| - 1];
      forall e | e in bs ensures e.name != last {
        assert e.name in front;
      }
      var r := LoaderBindings(order, c.types);
      forall i, j | 0 <= i < j < |r| ensures r[i].name != r[j].name {
        if j >= |bs| {
          assert r[i] in bs;
        }
      }
    }
  }

  /** The epilogue binds every concrete collected loader exactly once, in
      declaration order, binds nothing else, and leaves abstract loaders
      unbound. */
  lemma EpilogueBindsConcreteLoadersOnce(c: Catalog)
    requires Valid(c)
    ensures var bs := LoaderBindings(c.order, c.types);
      && NoDup(BoundNames(bs))
      && (forall k :: k in c.types ==> (LoaderBinding(k, c.types[k].init) in bs <==> !c.types[k].isAbstract))
      && (forall e :: e in bs ==> e.name in c.types && e.init == c.types[e.name].init)
  {
    LoaderBindingsMembers(c, c.order);
    LoaderBindingsDistinct(c, c.order);
  }

  /** Declaring more loaders only adds bindings after the existing ones:
      the binding order is the declaration order. */
  lemma BindingsFollowDeclarationOrder(c: Catalog, d: Catalog)
    requires Valid(c) && Valid(d) && Extends(c, d)
    ensures var bc := LoaderBindings(c.order, c.types);
      var bd := LoaderBindings(d.order, d.types);
      |bc| <= |bd| && bd[..|bc|] == bc
  {
    var later := d.order[|c.order|..];
    assert d.order == c.order + later;
    LoaderBindingsAppend(c.order, later, d.types);
    LoaderBindingsSameTypes(c.order, c.types, d.types);
  }

  lemma {:induction false} LoaderBindingsSameTypes(order: seq<string>, t1: map<string, TypeDef>, t2: map<string, TypeDef>)
    requires forall k :: k in order ==> k in t1 && k in t2 && t1[k] == t2[k]
    ensures LoaderBindings(order, t1) == LoaderBindings(order, t2)
    decreases |order|
  {
    if |order| > 0 {
      LoaderBindingsSameTypes(order[..|order| - 1], t1, t2);
    }
  }
}
