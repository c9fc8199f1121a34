/** Identifier sanitising: `PythonCodeGen.safe_name`
    (schema_salad/python_codegen.py:94-103). */
module Names {
  import opened Text

  /** The two helpers of `schema_salad.schema` the generator calls,
      `avro_field_name` and `shortname`. Their definitions are not part of
      this model; every operation takes them as given functions. */
  datatype Naming = Naming(avroFieldName: string -> string, shortname: string -> string)

  const AnonPrefix: string := "anon."

  /** `safe_name(name)`: drop one leading `anon.` from the Avro field name,
      then append `_` to the Python reserved words `class` and `in`. */
  function SafeName(n: Naming, name: string): (r: string)
    ensures r != "class" && r != "in"
    ensures var avn := n.avroFieldName(name);
      && (!StartsWith(avn, AnonPrefix) && avn != "class" && avn != "in" ==> r == avn)
      && (avn == "class" || avn == AnonPrefix + "class" ==> r == "class_")
      && (avn == "in" || avn == AnonPrefix + "in" ==> r == "in_")
      && (StartsWith(avn, AnonPrefix) && avn[5..] != "class" && avn[5..] != "in" ==> r == avn[5..])
  {
    var avn := n.avroFieldName(name);
    var stripped := if StartsWith(avn, AnonPrefix) then avn[5..] else avn;
    assert StartsWith(avn, AnonPrefix) ==> avn[0] == 'a';
    assert avn == AnonPrefix + "class" ==> stripped == "class";
    assert avn == AnonPrefix + "in" ==> stripped == "in";
    if stripped == "class" || stripped == "in" then stripped + "_" else stripped
  }

  /** `safe_name` applied to each element. */
  function SafeNames(n: Naming, names: seq<string>): (r: seq<string>)
    ensures |r| == |names|
    ensures forall i :: 0 <= i < |names| ==> r[i] == SafeName(n, names[i])
  {
    seq(|names|, i requires 0 <= i < |names| => SafeName(n, names[i]))
  }

  /** The result starts with `anon.` only when the Avro name starts with the
      prefix twice: `safe_name` strips a single occurrence. */
  lemma SafeNameDropsAnonPrefix(n: Naming, name: string)
    requires !StartsWith(n.avroFieldName(name), AnonPrefix + AnonPrefix)
    ensures !StartsWith(SafeName(n, name), AnonPrefix)
  {
  }

  /** An Avro field name that carries the prefix twice keeps one copy. */
  lemma SafeNameStripsOnce()
    ensures SafeName(Naming(s => s, s => s), "anon.anon.x") == "anon.x"
  {
    var n := Naming(s => s, s => s);
    assert StartsWith("anon.anon.x", AnonPrefix);
    assert "anon.anon.x"[5..] == "anon.x";
  }
}
