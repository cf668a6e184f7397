/** Encoding a struct whose fields are all exported scalars and decoding the entries back into a
    fresh struct gives the original values: the round trip the encoder and decoder are built
    for (marshal_test.go and unmarshal_test.go use the same flat shapes). */
module RoundTrip {
  import opened Wrappers
  import opened Text
  import opened Csv
  import opened Kinds
  import opened Values
  import opened Marshal
  import opened EnvStore
  import opened Unmarshal

  /** The values of a flat struct that survive the round trip: encodable, every field an exported
      scalar with a distinct upper-cased name and no `=` (Go identifiers never hold one), and every
      integer within the range Atoi accepts. */
  predicate FlatStruct(fs: seq<Field>, vs: seq<Value>)
  {
    |vs| == |fs| && FieldsEncodable(vs, fs) && FlatFields(fs) &&
    (forall i :: 0 <= i < |fs| ==> '=' !in fs[i].name) &&
    (forall i :: 0 <= i < |vs| ==> vs[i].IntV? ==> MinInt64 <= vs[i].i <= MaxInt64)
  }

  /** Splitting `a=b` at its first `=` gives back a and b when a has no `=`. */
  lemma SplitAtFirstEquals(a: string, b: string)
    requires '=' !in a
    ensures SplitAtEquals(a + "=" + b) == Some((a, b))
  {
    var e := a + "=" + b;
    assert e[|a|] == '=';
    assert e[..|a|] == a && e[|a| + 1..] == b;
  }

  lemma UpperKeepsNoEquals(s: string)
    requires '=' !in s
    ensures '=' !in ToUpper(s)
  {
    var u := ToUpper(s);
    forall i | 0 <= i < |u| ensures u[i] != '=' {
      assert s[i] != '=';
    }
  }

  lemma NoEqualsAppend(a: string, b: string)
    requires '=' !in a && '=' !in b
    ensures '=' !in a + b
  {
    var c := a + b;
    forall i | 0 <= i < |c| ensures c[i] != '=' {
      if i < |a| { assert c[i] == a[i]; } else { assert c[i] == b[i - |a|]; }
    }
  }

  /** An entry `pfx + key=val` is read back by newEnvMap as key holding val. */
  lemma EntryParses(e: string, pfx: string, key: string, val: string)
    requires '=' !in pfx && '=' !in key && e == (pfx + key) + "=" + val
    ensures EnvKey(e, pfx) == Some(key)
    ensures '=' in e && EnvValue(e) == val
  {
    NoEqualsAppend(pfx, key);
    SplitAtFirstEquals(pfx + key, val);
    assert (pfx + key)[..|pfx|] == pfx && (pfx + key)[|pfx|..] == key;
  }

  /** The path of a field of the root struct is its upper-cased name, and its entry is that path,
      `=` and the field's text. */
  lemma RootFieldEntry(f: Field, x: Value)
    requires '=' !in f.name
    ensures FieldPath("", f) == ToUpper(f.name) && '=' !in FieldPath("", f)
    ensures FlatEntry(f, x, "") == FieldPath("", f) + "=" + Sprint(x)
  {
    assert FieldPath("", f) == ToUpper(f.name);
    ToUpperIdempotent(f.name);
    UpperKeepsNoEquals(f.name);
  }

  /** The prefixed entry of one field is read back by newEnvMap as the field's path, holding the
      field's text. */
  lemma FlatEntryParses(f: Field, x: Value, pfx: string)
    requires '=' !in pfx && '=' !in f.name
    ensures EnvKey(pfx + FlatEntry(f, x, ""), pfx) == Some(FieldPath("", f))
    ensures '=' in pfx + FlatEntry(f, x, "") && EnvValue(pfx + FlatEntry(f, x, "")) == Sprint(x)
  {
    var key, val := FieldPath("", f), Sprint(x);
    RootFieldEntry(f, x);
    assert pfx + (key + "=" + val) == (pfx + key) + "=" + val;
    EntryParses(pfx + FlatEntry(f, x, ""), pfx, key, val);
  }

  /** Entry j of the encoded struct is read back by newEnvMap as the upper-cased name of field j,
      holding the field's text. */
  lemma FlatEnvEntryAt(fs: seq<Field>, vs: seq<Value>, pfx: string, env: seq<string>, j: nat)
    requires FlatStruct(fs, vs) && '=' !in pfx && j < |fs|
    requires env == Prefixed(pfx, FlatEntries(fs, vs, ""))
    ensures j < |env| && FieldPath("", fs[j]) == ToUpper(fs[j].name)
    ensures EnvKey(env[j], pfx) == Some(ToUpper(fs[j].name))
    ensures '=' in env[j] && EnvValue(env[j]) == Sprint(vs[j])
  {
    assert env[j] == pfx + FlatEntry(fs[j], vs[j], "");
    FlatEntryParses(fs[j], vs[j], pfx);
    RootFieldEntry(fs[j], vs[j]);
  }

  /** The store built from the encoded entries maps the path of field i to the field's text. */
  lemma FlatStoreAt(fs: seq<Field>, vs: seq<Value>, pfx: string, i: nat)
    requires FlatStruct(fs, vs) && '=' !in pfx && i < |fs|
    ensures Lookup(ParseEnv(Prefixed(pfx, FlatEntries(fs, vs, "")), pfx), FieldPath("", fs[i])) == Sprint(vs[i])
  {
    var env := Prefixed(pfx, FlatEntries(fs, vs, ""));
    LaterEntriesDiffer(fs, vs, pfx, env, i);
    ParseEnvLastWins(env, pfx, i);
  }

  /** No later entry of the encoded struct has the key of entry i: the upper-cased field names are
      distinct. */
  lemma LaterEntriesDiffer(fs: seq<Field>, vs: seq<Value>, pfx: string, env: seq<string>, i: nat)
    requires FlatStruct(fs, vs) && '=' !in pfx && i < |fs|
    requires env == Prefixed(pfx, FlatEntries(fs, vs, ""))
    ensures i < |env| && EnvKey(env[i], pfx) == Some(FieldPath("", fs[i]))
    ensures '=' in env[i] && EnvValue(env[i]) == Sprint(vs[i])
    ensures forall j :: i < j < |env| ==> EnvKey(env[j], pfx) != EnvKey(env[i], pfx)
  {
    FlatEnvEntryAt(fs, vs, pfx, env, i);
    forall j | i < j < |env| ensures EnvKey(env[j], pfx) != EnvKey(env[i], pfx) {
      FlatEnvEntryAt(fs, vs, pfx, env, j);
    }
  }

  /** Coercing each field's text into a zero field gives back the field's value. */
  lemma DecodeFromStore(fs: seq<Field>, vs: seq<Value>, m: map<string, string>)
    requires FlatStruct(fs, vs)
    requires forall i :: 0 <= i < |fs| ==> Lookup(m, FieldPath("", fs[i])) == Sprint(vs[i])
    ensures |ZeroFields(fs)| == |fs|
    ensures Collect(FlatCoercions(fs, ZeroFields(fs), "", m)) == Ok(vs)
  {
    ZeroFieldsIndexed(fs);
    var ps := FlatCoercions(fs, ZeroFields(fs), "", m);
    FieldsEncodableAreTyped(vs, fs);
    FieldsHaveTypesIndexed(vs, fs);
    forall i | 0 <= i < |fs| ensures ps[i] == (vs[i], None) {
      FieldDecodesBack(fs[i], vs[i], m);
    }
    CollectAllOk(ps, vs);
  }

  /** A scalar field whose path holds the text of x is coerced, from its zero value, to x. */
  lemma FieldDecodesBack(f: Field, x: Value, m: map<string, string>)
    requires IsScalar(f.typ) && HasType(x, f.typ) && (x.IntV? ==> MinInt64 <= x.i <= MaxInt64)
    requires Lookup(m, FieldPath("", f)) == Sprint(x)
    ensures FieldCoercion(f, Zero(f.typ), "", m) == (x, None)
  {
    ScalarRoundTrip(f.typ, x);
  }

  /** Coercions that all succeed collect to their values. */
  lemma CollectAllOk(ps: seq<(Value, Option<DecodeError>)>, vs: seq<Value>)
    requires |ps| == |vs| && forall i :: 0 <= i < |ps| ==> ps[i] == (vs[i], None)
    ensures Collect(ps) == Ok(vs)
  {
    CollectMeaning(ps);
    assert Collect(ps).value == vs;
  }

  /** A pointer to a flat struct encodes as one entry per field, prefixed, in declaration order. */
  lemma FlatEncoding(fs: seq<Field>, vs: seq<Value>, pfx: string)
    requires FlatStruct(fs, vs)
    ensures Encodable(PtrV(StructV(vs)), Ptr(Struct(fs)))
    ensures MarshalRoot(Ptr(Struct(fs)), PtrV(StructV(vs)), pfx) == Ok(Prefixed(pfx, FlatEntries(fs, vs, "")))
  {
    FlatStructEntries(fs, vs, "");
  }

  /** Decoding the encoded entries into zero fields yields the original values, field by field. */
  lemma FlatDecoding(fs: seq<Field>, vs: seq<Value>, pfx: string)
    requires FlatStruct(fs, vs) && '=' !in pfx
    ensures |ZeroFields(fs)| == |fs|
    ensures Collect(FlatCoercions(fs, ZeroFields(fs), "", ParseEnv(Prefixed(pfx, FlatEntries(fs, vs, "")), pfx))) == Ok(vs)
  {
    var m := ParseEnv(Prefixed(pfx, FlatEntries(fs, vs, "")), pfx);
    forall i | 0 <= i < |fs| ensures Lookup(m, FieldPath("", fs[i])) == Sprint(vs[i]) {
      FlatStoreAt(fs, vs, pfx, i);
    }
    DecodeFromStore(fs, vs, m);
  }

  /** Decode after encode is the identity on flat structs, for any prefix without `=`. */
  lemma FlatRoundTrip(fs: seq<Field>, vs: seq<Value>, pfx: string)
    requires FlatStruct(fs, vs) && '=' !in pfx
    ensures Encodable(PtrV(StructV(vs)), Ptr(Struct(fs)))
    ensures MarshalRoot(Ptr(Struct(fs)), PtrV(StructV(vs)), pfx).Ok?
    ensures |ZeroFields(fs)| == |fs|
    ensures Collect(FlatCoercions(fs, ZeroFields(fs), "", ParseEnv(MarshalRoot(Ptr(Struct(fs)), PtrV(StructV(vs)), pfx).value, pfx))) == Ok(vs)
  {
    FlatEncoding(fs, vs, pfx);
    FlatDecoding(fs, vs, pfx);
  }

  lemma {:induction false} ScalarFieldsDecodeSafe(fs: seq<Field>)
    requires forall i :: 0 <= i < |fs| ==> Exported(fs[i]) && IsScalar(fs[i].typ)
    ensures FieldsDecodeSafe(fs)
    decreases |fs|
  {
    if fs != [] {
      assert forall i :: 0 <= i < |fs[1..]| ==> fs[1..][i] == fs[i + 1];
      ScalarFieldsDecodeSafe(fs[1..]);
    }
  }

  /** MarshalPfx followed by UnmarshalEnv into a fresh struct (`new(T)`) with the same prefix: no
      error, and the decoded struct equals the encoded one. */
  method MarshalThenUnmarshal(fs: seq<Field>, vs: seq<Value>, pfx: string) returns (nv: Value, err: Option<DecodeError>)
    requires FlatStruct(fs, vs) && '=' !in pfx
    ensures err.None? && nv == PtrV(StructV(vs))
  {
    var t := Ptr(Struct(fs));
    FlatRoundTrip(fs, vs, pfx);
    var entries := MarshalRoot(t, PtrV(StructV(vs)), pfx);
    ScalarFieldsDecodeSafe(fs);
    nv, err := UnmarshalEnv(t, PtrV(StructV(ZeroFields(fs))), entries.value, pfx);
  }

  // ----- Scalar slices -----

  /** Elements of a scalar type that survive the round trip: integers within the range of Atoi. */
  predicate ScalarElems(te: Type, elems: seq<Value>)
  {
    IsScalar(te) &&
    forall i :: 0 <= i < |elems| ==> HasType(elems[i], te) && (elems[i].IntV? ==> MinInt64 <= elems[i].i <= MaxInt64)
  }

  /** Coercing the texts of the elements one by one gives back the elements. */
  lemma DecodeScalarsOfTexts(te: Type, elems: seq<Value>)
    requires ScalarElems(te, elems)
    ensures DecodeScalars(te, ScalarTexts(elems)) == Ok(elems)
  {
    var texts := ScalarTexts(elems);
    forall i | 0 <= i < |elems| ensures SetScalar(te, Zero(te), texts[i]) == (elems[i], None) {
      ScalarElemRoundTrip(te, elems[i]);
    }
    DecodeScalarsPointwise(te, texts, elems);
  }

  /** One element's text coerced into a fresh element gives the element back. */
  lemma ScalarElemRoundTrip(te: Type, x: Value)
    requires IsScalar(te) && HasType(x, te) && (x.IntV? ==> MinInt64 <= x.i <= MaxInt64)
    ensures SetScalar(te, Zero(te), ScalarText(x)) == (x, None)
  {
    ScalarRoundTrip(te, x);
  }

  /** Texts that each coerce without error into the matching value decode to those values. */
  lemma {:induction false} DecodeScalarsPointwise(te: Type, fields: seq<string>, vs: seq<Value>)
    requires |vs| == |fields|
    requires forall i :: 0 <= i < |fields| ==> SetScalar(te, Zero(te), fields[i]) == (vs[i], None)
    ensures DecodeScalars(te, fields) == Ok(vs)
    decreases |fields|
  {
    if fields != [] {
      var n := |fields| - 1;
      assert forall i :: 0 <= i < n ==> fields[..n][i] == fields[i] && vs[..n][i] == vs[i];
      DecodeScalarsPointwise(te, fields[..n], vs[..n]);
      DecodeScalarsSnoc(te, fields, vs[..n], vs[n]);
      TakeStep(vs, n);
      TakeAll(vs, n + 1);
    }
  }

  /** The decoded texts with one more element that coerces without error. */
  lemma DecodeScalarsSnoc(te: Type, fields: seq<string>, vs: seq<Value>, x: Value)
    requires fields != [] && DecodeScalars(te, fields[..|fields| - 1]) == Ok(vs)
    requires SetScalar(te, Zero(te), fields[|fields| - 1]) == (x, None)
    ensures DecodeScalars(te, fields) == Ok(vs + [x])
  {
  }

  /** The value the encoder stores for a non-empty scalar slice (ScalarSliceEntry) decodes back to
      the same elements, e.g. `once,upon,"a time, comma",omg`. An empty record and a string
      element holding CR LF, which reads back with LF alone, are the exceptions
      (Csv.EmptyValuesDoNotRoundTrip, Csv.CrLfNotKept). */
  lemma ScalarSliceRoundTrip(te: Type, elems: seq<Value>)
    requires ScalarElems(te, elems) && JoinFields(ScalarTexts(elems)) != ""
    requires forall i :: 0 <= i < |elems| ==> NoCrLf(ScalarText(elems[i]))
    ensures ScalarSliceOutcome(te, JoinFields(ScalarTexts(elems))) == Ok(SliceV(elems))
  {
    Csv.RoundTrip(ScalarTexts(elems));
    DecodeScalarsOfTexts(te, elems);
  }
}
