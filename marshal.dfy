/** The encoder (marshal.go): a walk over a struct or map that yields `KEY=VALUE` entries.

    Keys are paths. A struct field adds its upper-cased name, a map entry the upper-cased `%v`
    of its key, and an element of a non-scalar slice `.` and its decimal index; a nested struct
    or map adds a `.` after its own segment. A scalar leaf yields `UPPER(path)=value`. A slice of
    scalars yields a single entry whose value is the CSV record of its elements.

    The Go functions build their result with `append` in loops over fields, map keys and
    indices. Nothing else is changed, so each loop is a recursive function over the remaining
    fields, entries or elements here. No path below the root can fail (the CSV writer's error
    is ignored), so only the root returns an error. */
module Marshal {
  import opened Wrappers
  import opened Text
  import opened Kinds
  import opened Values
  import opened Csv

  datatype MarshalError =
    | NotPointer      // "i must be a pointer"
    | NotStructOrMap  // "not struct or map"

  // ----- What the encoder accepts -----

  /** v is a value of type t that the encoder walks without a panic. The descriptor is
      well-formed (field names start with an ASCII letter, map keys are scalars), and no element
      of a scalar slice is a nil pointer, whose `Interface()` would panic (marshal.go:233-236). */
  predicate Encodable(v: Value, t: Type)
    decreases t
  {
    match t
    case Bool => v.BoolV?
    case Integer(k) => v.IntV? && InRange(k, v.i)
    case Str => v.StrV?
    case Ptr(e) => v.NilV? || (v.PtrV? && Encodable(v.target, e))
    case Struct(fs) => v.StructV? && FieldsEncodable(v.fields, fs)
    case Map(k, e) =>
      v.MapV? && IsScalar(k) && DistinctKeys(v.entries) &&
      forall i :: 0 <= i < |v.entries| ==> HasType(v.entries[i].key, k) && Encodable(v.entries[i].val, e)
    case Slice(e) =>
      v.SliceV? &&
      forall i :: 0 <= i < |v.elems| ==> Encodable(v.elems[i], e) && !(IsScalar(Deref(e)) && v.elems[i].NilV?)
    case Interface => v.OpaqueV?
    case Other(_) => v.OpaqueV?
  }

  predicate FieldsEncodable(vs: seq<Value>, fs: seq<Field>)
    decreases fs
  {
    |vs| == |fs| &&
    (fs == [] || (GoodFieldName(fs[0].name) && Encodable(vs[0], fs[0].typ) && FieldsEncodable(vs[1..], fs[1..])))
  }

  /** An encodable value is a value of its type. */
  lemma {:induction false} EncodableIsTyped(v: Value, t: Type)
    requires Encodable(v, t)
    ensures HasType(v, t)
    decreases t, 1
  {
    match t
    case Ptr(e) =>
      if v.PtrV? { EncodableIsTyped(v.target, e); }
    case Struct(fs) => FieldsEncodableAreTyped(v.fields, fs);
    case Map(k, e) =>
      forall i | 0 <= i < |v.entries| ensures HasType(v.entries[i].val, e) {
        EncodableIsTyped(v.entries[i].val, e);
      }
    case Slice(e) =>
      forall i | 0 <= i < |v.elems| ensures HasType(v.elems[i], e) {
        EncodableIsTyped(v.elems[i], e);
      }
    case _ =>
  }

  lemma {:induction false} FieldsEncodableAreTyped(vs: seq<Value>, fs: seq<Field>)
    requires FieldsEncodable(vs, fs)
    ensures FieldsHaveTypes(vs, fs)
    decreases fs, 0
  {
    if fs != [] {
      EncodableIsTyped(vs[0], fs[0].typ);
      FieldsEncodableAreTyped(vs[1..], fs[1..]);
    }
  }

  /** The value after marshalStruct, marshalMap or marshalSlice removed the pointer layer of a
      non-nil pointer (`v.Elem()`). */
  function DerefValue(t: Type, v: Value): (w: Value)
    requires Encodable(v, t) && !v.NilV?
    ensures Encodable(w, Deref(t))
    ensures w == v || (v.PtrV? && w == v.target)
  {
    if t.Ptr? then v.target else v
  }

  // ----- Entries and paths -----

  /** e is an entry whose key starts with the upper-cased path, followed later by the `=`. */
  predicate EntryUnder(e: string, path: string)
  {
    var p := ToUpper(path);
    p <= e && '=' in e[|p|..]
  }

  predicate AllUnder(es: seq<string>, path: string)
  {
    forall i :: 0 <= i < |es| ==> EntryUnder(es[i], path)
  }

  /** An entry under a longer path is under each of its prefixes. */
  lemma UnderShorterPath(es: seq<string>, a: string, b: string)
    requires AllUnder(es, a + b)
    ensures AllUnder(es, a)
  {
    ToUpperAppend(a, b);
    var pa, pab := ToUpper(a), ToUpper(a + b);
    forall i | 0 <= i < |es| ensures EntryUnder(es[i], a) {
      var e := es[i];
      assert pa <= pab;
      var j :| |pab| <= j < |e| && e[j] == '=';
      assert e[|pa|..][j - |pa|] == '=';
    }
  }

  lemma UnderAppend(xs: seq<string>, ys: seq<string>, path: string)
    requires AllUnder(xs, path) && AllUnder(ys, path)
    ensures AllUnder(xs + ys, path)
  {
    forall i | 0 <= i < |xs + ys| ensures EntryUnder((xs + ys)[i], path) {
      if i < |xs| { assert (xs + ys)[i] == xs[i]; } else { assert (xs + ys)[i] == ys[i - |xs|]; }
    }
  }

  // ----- marshalScalar -----

  /** The `%v` text of a scalar reached through at most one pointer. */
  function ScalarText(v: Value): string
  {
    if v.PtrV? then Sprint(v.target) else Sprint(v)
  }

  /** marshalScalar: "" for a nil pointer, otherwise the upper-cased path, `=` and the `%v` text
      of the (dereferenced) value. */
  function MarshalScalar(v: Value, name: string): (r: string)
    ensures r == "" <==> v.NilV?
    ensures !v.NilV? ==> EntryUnder(r, name) && r[|ToUpper(name)|..] == "=" + ScalarText(v)
  {
    if v.NilV? then ""
    else
      var r := ToUpper(name) + "=" + ScalarText(v);
      assert r[|ToUpper(name)|..] == "=" + ScalarText(v);
      r
  }

  // ----- The shared kind switch -----

  /** The switch of marshalStruct, marshalMap and marshalSlice on the kind of the value's type
      after one pointer layer: scalars yield their entry unless it is "", slices, maps and structs
      recurse (maps and structs below `name.`), and every other kind yields nothing.

      A struct field of pointer type is dereferenced by marshalStruct before the switch and then
      dispatched on its element type; passing the pointer here instead is the same walk, since
      each branch below removes one pointer layer in the same way. */
  function Dispatch(t: Type, v: Value, name: string): (r: seq<string>)
    requires Encodable(v, t)
    ensures AllUnder(r, name)
    ensures IsStruct(Deref(t)) || IsMap(Deref(t)) ==> AllUnder(r, name + ".")
    ensures !IsScalar(Deref(t)) && !IsSlice(Deref(t)) && !IsMap(Deref(t)) && !IsStruct(Deref(t)) ==> r == []
    ensures v.NilV? ==> r == []
    decreases v, 2
  {
    var te := Deref(t);
    if IsScalar(te) then
      var s := MarshalScalar(v, name);
      if s == "" then [] else [s]
    else if IsSlice(te) then
      MarshalSlice(t, v, name)
    else if IsMap(te) then
      var r := MarshalMap(t, v, name + ".");
      UnderShorterPath(r, name, ".");
      r
    else if IsStruct(te) then
      var r := MarshalStruct(t, v, name + ".");
      UnderShorterPath(r, name, ".");
      r
    else []
  }

  // ----- marshalStruct -----

  /** marshalStruct: nothing for a nil pointer; otherwise the entries of the fields in
      declaration order. */
  function MarshalStruct(t: Type, v: Value, name: string): (r: seq<string>)
    requires Deref(t).Struct? && Encodable(v, t)
    ensures AllUnder(r, name)
    ensures v.NilV? ==> r == []
    decreases v, 1
  {
    if v.NilV? then []
    else
      var s := DerefValue(t, v);
      MarshalFields(Deref(t).fields, s.fields, name)
  }

  function MarshalFields(fs: seq<Field>, vs: seq<Value>, name: string): (r: seq<string>)
    requires FieldsEncodable(vs, fs)
    ensures AllUnder(r, name)
    decreases vs, 0
  {
    if fs == [] then []
    else
      var r := MarshalField(fs[0], vs[0], name) + MarshalFields(fs[1..], vs[1..], name);
      UnderAppend(MarshalField(fs[0], vs[0], name), MarshalFields(fs[1..], vs[1..], name), name);
      r
  }

  /** The path of a struct field: the struct's path and the upper-cased field name. */
  function FieldPath(name: string, f: Field): string
  {
    name + ToUpper(f.name)
  }

  /** One field: skipped when its name starts with a lower-case letter or it is a nil pointer,
      otherwise dispatched under `name + UPPER(field name)`. */
  function MarshalField(f: Field, fv: Value, name: string): (r: seq<string>)
    requires GoodFieldName(f.name) && Encodable(fv, f.typ)
    ensures AllUnder(r, FieldPath(name, f))
    ensures IsLowerAscii(f.name[0]) ==> r == []
    ensures fv.NilV? ==> r == []
    decreases fv, 3
  {
    var fn := FieldPath(name, f);
    if IsLowerAscii(f.name[0]) then []
    else if IsPtr(f.typ) && fv.NilV? then []
    else Dispatch(f.typ, fv, fn)
  }

  // ----- marshalMap -----

  /** marshalMap: nothing for a nil pointer; otherwise the entries of each map entry in
      iteration order, under `name + UPPER(%v of the key)`. */
  function MarshalMap(t: Type, v: Value, name: string): (r: seq<string>)
    requires Deref(t).Map? && Encodable(v, t)
    ensures AllUnder(r, name)
    ensures v.NilV? ==> r == []
    decreases v, 1
  {
    if v.NilV? then []
    else
      var m := DerefValue(t, v);
      MarshalEntries(Deref(t).val, m.entries, name)
  }

  predicate EntriesEncodable(e: Type, es: seq<Entry>)
  {
    forall i :: 0 <= i < |es| ==> Encodable(es[i].val, e)
  }

  /** The path of a map entry: the map's path and the upper-cased `%v` of the key. */
  function EntryPath(name: string, key: Value): string
  {
    name + ToUpper(Sprint(key))
  }

  /** The entries of one map entry, under the entry's path. */
  function EntryEntries(e: Type, x: Entry, name: string): (r: seq<string>)
    requires Encodable(x.val, e)
    ensures AllUnder(r, EntryPath(name, x.key))
    decreases x, 1
  {
    assert x.val < x;
    Dispatch(e, x.val, EntryPath(name, x.key))
  }

  function MarshalEntries(e: Type, es: seq<Entry>, name: string): (r: seq<string>)
    requires EntriesEncodable(e, es)
    ensures AllUnder(r, name)
    decreases es, 0
  {
    if es == [] then []
    else
      var first := EntryEntries(e, es[0], name);
      UnderShorterPath(first, name, ToUpper(Sprint(es[0].key)));
      var rest := MarshalEntries(e, es[1..], name);
      UnderAppend(first, rest, name);
      first + rest
  }

  // ----- marshalSlice -----

  /** The `%v` texts of the elements of a scalar slice, each dereferenced once. */
  function ScalarTexts(vs: seq<Value>): (r: seq<string>)
    ensures |r| == |vs|
    ensures forall i :: 0 <= i < |vs| ==> r[i] == ScalarText(vs[i])
  {
    if vs == [] then [] else [ScalarText(vs[0])] + ScalarTexts(vs[1..])
  }

  /** marshalSlice: nothing for a nil pointer. A slice of scalars yields one entry at the path
      whose value is the CSV record of the elements with its line end cut off (an empty slice
      gives `NAME=`). Otherwise element i is dispatched under `name.i`. */
  function MarshalSlice(t: Type, v: Value, name: string): (r: seq<string>)
    requires Deref(t).Slice? && Encodable(v, t)
    ensures AllUnder(r, name)
    ensures v.NilV? ==> r == []
    decreases v, 1
  {
    if v.NilV? then []
    else
      var s := DerefValue(t, v);
      var e := Deref(t).item;
      if IsScalar(Deref(e)) then
        var rec := WriteRecord(ScalarTexts(s.elems));
        [MarshalScalar(StrV(rec[..|rec| - 1]), name)]
      else MarshalElems(e, s.elems, name, 0)
  }

  /** The path of element i of a slice: the slice's path, `.` and the decimal index. */
  function IndexPath(name: string, i: nat): string
  {
    name + "." + Itoa(i)
  }

  /** The elements of a non-scalar slice, the first one having index `start`. */
  function MarshalElems(e: Type, vs: seq<Value>, name: string, start: nat): (r: seq<string>)
    requires forall i :: 0 <= i < |vs| ==> Encodable(vs[i], e)
    ensures AllUnder(r, name)
    decreases vs, 0
  {
    if vs == [] then []
    else
      var first := Dispatch(e, vs[0], IndexPath(name, start));
      assert IndexPath(name, start) == name + ("." + Itoa(start));
      UnderShorterPath(first, name, "." + Itoa(start));
      var rest := MarshalElems(e, vs[1..], name, start + 1);
      UnderAppend(first, rest, name);
      first + rest
  }

  /** The path below which the entries of element j lie: `name.j`, and `name.j.` for a struct
      or map element. */
  function ElemPath(e: Type, name: string, j: nat): string
  {
    if IsStruct(Deref(e)) || IsMap(Deref(e)) then IndexPath(name, j) + "." else IndexPath(name, j)
  }

  /** The entries of the first element, under its own index path, come first; the remaining
      elements follow with the next indices. */
  lemma MarshalElemsCons(e: Type, vs: seq<Value>, name: string, start: nat)
    requires vs != [] && forall i :: 0 <= i < |vs| ==> Encodable(vs[i], e)
    ensures forall i :: 0 <= i < |vs[1..]| ==> Encodable(vs[1..][i], e)
    ensures MarshalElems(e, vs, name, start) ==
      Dispatch(e, vs[0], IndexPath(name, start)) + MarshalElems(e, vs[1..], name, start + 1)
    ensures AllUnder(Dispatch(e, vs[0], IndexPath(name, start)), ElemPath(e, name, start))
  {
    assert forall i :: 0 <= i < |vs[1..]| ==> vs[1..][i] == vs[i + 1];
  }

  /** The blocks of entries concatenated in order. */
  function Flatten(bs: seq<seq<string>>): (r: seq<string>)
    ensures bs != [] ==> r == bs[0] + Flatten(bs[1..])
  {
    if bs == [] then [] else bs[0] + Flatten(bs[1..])
  }

  /** Each entry of a concatenation of blocks comes from a block and lies under that block's path. */
  lemma {:induction false} FlattenOwner(bs: seq<seq<string>>, paths: seq<string>, k: nat) returns (j: nat)
    requires |bs| == |paths| && forall i :: 0 <= i < |bs| ==> AllUnder(bs[i], paths[i])
    requires k < |Flatten(bs)|
    ensures j < |bs| && EntryUnder(Flatten(bs)[k], paths[j])
    decreases |bs|
  {
    if k < |bs[0]| {
      j := 0;
      assert Flatten(bs)[k] == bs[0][k];
    } else {
      assert forall i :: 0 <= i < |bs[1..]| ==> bs[1..][i] == bs[i + 1];
      var j' := FlattenOwner(bs[1..], paths[1..], k - |bs[0]|);
      j := j' + 1;
      assert Flatten(bs)[k] == Flatten(bs[1..])[k - |bs[0]|];
    }
  }

  /** The entries of each element of a slice, the first element having index `start`. */
  function ElemBlocks(e: Type, vs: seq<Value>, name: string, start: nat): (r: seq<seq<string>>)
    requires forall i :: 0 <= i < |vs| ==> Encodable(vs[i], e)
    ensures |r| == |vs|
    ensures forall i :: 0 <= i < |vs| ==> r[i] == Dispatch(e, vs[i], IndexPath(name, start + i))
  {
    seq(|vs|, i requires 0 <= i < |vs| => Dispatch(e, vs[i], IndexPath(name, start + i)))
  }

  /** The element paths of `n` elements starting at index `start`. */
  function ElemPaths(e: Type, name: string, start: nat, n: nat): (r: seq<string>)
    ensures |r| == n && forall i :: 0 <= i < n ==> r[i] == ElemPath(e, name, start + i)
  {
    seq(n, i requires 0 <= i < n => ElemPath(e, name, start + i))
  }

  /** The entries of each element lie under that element's path. */
  lemma ElemBlocksUnder(e: Type, vs: seq<Value>, name: string, start: nat)
    requires forall i :: 0 <= i < |vs| ==> Encodable(vs[i], e)
    ensures forall i :: 0 <= i < |vs| ==>
      AllUnder(ElemBlocks(e, vs, name, start)[i], ElemPaths(e, name, start, |vs|)[i])
  {
    forall i | 0 <= i < |vs|
      ensures AllUnder(ElemBlocks(e, vs, name, start)[i], ElemPaths(e, name, start, |vs|)[i])
    {
      assert IndexPath(name, start + i) + "." == ElemPath(e, name, start + i) || IndexPath(name, start + i) == ElemPath(e, name, start + i);
    }
  }

  /** A non-scalar slice's entries are its elements' entries, in order. */
  lemma {:induction false} MarshalElemsBlocks(e: Type, vs: seq<Value>, name: string, start: nat)
    requires forall i :: 0 <= i < |vs| ==> Encodable(vs[i], e)
    ensures MarshalElems(e, vs, name, start) == Flatten(ElemBlocks(e, vs, name, start))
    decreases |vs|
  {
    if vs != [] {
      MarshalElemsCons(e, vs, name, start);
      MarshalElemsBlocks(e, vs[1..], name, start + 1);
      ElemBlocksCons(e, vs, name, start);
    }
  }

  /** The first block is the first element's entries; the others are the blocks of the rest. */
  lemma ElemBlocksCons(e: Type, vs: seq<Value>, name: string, start: nat)
    requires vs != [] && forall i :: 0 <= i < |vs| ==> Encodable(vs[i], e)
    ensures forall i :: 0 <= i < |vs[1..]| ==> Encodable(vs[1..][i], e)
    ensures Flatten(ElemBlocks(e, vs, name, start)) ==
      Dispatch(e, vs[0], IndexPath(name, start)) + Flatten(ElemBlocks(e, vs[1..], name, start + 1))
  {
    ElemBlocksTail(e, vs, name, start);
  }

  /** Dropping the first element drops the first block. */
  lemma ElemBlocksTail(e: Type, vs: seq<Value>, name: string, start: nat)
    requires vs != [] && forall i :: 0 <= i < |vs| ==> Encodable(vs[i], e)
    ensures forall i :: 0 <= i < |vs[1..]| ==> Encodable(vs[1..][i], e)
    ensures ElemBlocks(e, vs, name, start)[1..] == ElemBlocks(e, vs[1..], name, start + 1)
  {
    assert forall i :: 0 <= i < |vs[1..]| ==> vs[1..][i] == vs[i + 1];
    var bs, tail := ElemBlocks(e, vs, name, start), ElemBlocks(e, vs[1..], name, start + 1);
    forall i | 0 <= i < |tail|
      ensures bs[1..][i] == tail[i]
    {
      assert start + (i + 1) == start + 1 + i;
    }
  }

  /** Every entry of a non-scalar slice lies under the path of one of its elements' indices. */
  lemma ElemsUnderIndices(e: Type, vs: seq<Value>, name: string, start: nat)
    requires forall i :: 0 <= i < |vs| ==> Encodable(vs[i], e)
    ensures forall k :: 0 <= k < |MarshalElems(e, vs, name, start)| ==>
      UnderSomeElem(MarshalElems(e, vs, name, start)[k], e, name, start, start + |vs|)
  {
    MarshalElemsBlocks(e, vs, name, start);
    ElemBlocksUnder(e, vs, name, start);
    var bs, paths := ElemBlocks(e, vs, name, start), ElemPaths(e, name, start, |vs|);
    forall k | 0 <= k < |Flatten(bs)|
      ensures UnderSomeElem(Flatten(bs)[k], e, name, start, start + |vs|)
    {
      var j := FlattenOwner(bs, paths, k);
      assert EntryUnder(Flatten(bs)[k], ElemPath(e, name, start + j));
    }
  }

  /** Entry x lies under the element path of some index in [lo, hi). */
  predicate UnderSomeElem(x: string, e: Type, name: string, lo: nat, hi: nat)
  {
    exists j :: lo <= j < hi && EntryUnder(x, ElemPath(e, name, j))
  }

  // ----- marshal, MarshalPfx -----

  /** Each entry with the caller's prefix in front; an empty prefix leaves the list as it is. */
  function Prefixed(pfx: string, es: seq<string>): (r: seq<string>)
    ensures |r| == |es|
    ensures forall i :: 0 <= i < |es| ==> r[i] == pfx + es[i]
  {
    if pfx == "" then
      assert forall i :: 0 <= i < |es| ==> pfx + es[i] == es[i];
      es
    else seq(|es|, i requires 0 <= i < |es| => pfx + es[i])
  }

  /** marshal(i, pfx): the argument must be a pointer to a struct or a map, whose entries are
      returned with pfx in front of each. */
  function MarshalRoot(t: Type, v: Value, pfx: string): (r: Result<seq<string>, MarshalError>)
    requires Encodable(v, t)
    ensures r.Err? <==> !(t.Ptr? && (t.elem.Struct? || t.elem.Map?))
    ensures r == Err(NotPointer) <==> !t.Ptr?
    ensures r.Ok? ==> forall i :: 0 <= i < |r.value| ==> pfx <= r.value[i] && '=' in r.value[i][|pfx|..]
    ensures r.Ok? && v.NilV? ==> r.value == []
  {
    if !IsPtr(t) then Err(NotPointer)
    else if IsStruct(t.elem) then Ok(PrefixedUnder(pfx, MarshalStruct(t, v, "")))
    else if IsMap(t.elem) then Ok(PrefixedUnder(pfx, MarshalMap(t, v, "")))
    else Err(NotStructOrMap)
  }

  /** Prefixing entries that hold an `=` after the (empty) root path keeps the `=` after the prefix. */
  function PrefixedUnder(pfx: string, es: seq<string>): (r: seq<string>)
    requires AllUnder(es, "")
    ensures r == Prefixed(pfx, es)
    ensures forall i :: 0 <= i < |r| ==> pfx <= r[i] && '=' in r[i][|pfx|..]
  {
    var r := Prefixed(pfx, es);
    assert forall i :: 0 <= i < |r| ==> r[i][|pfx|..] == es[i];
    r
  }

  // ----- What the encoder promises -----

  /** MarshalPfx is Marshal with the prefix in front of every entry: the same number of entries,
      in the same order, and the same error. */
  lemma PrefixMapping(t: Type, v: Value, pfx: string)
    requires Encodable(v, t)
    ensures MarshalRoot(t, v, pfx).Err? <==> MarshalRoot(t, v, "").Err?
    ensures MarshalRoot(t, v, pfx).Ok? ==>
      var r, u := MarshalRoot(t, v, pfx).value, MarshalRoot(t, v, "").value;
      |r| == |u| && forall i :: 0 <= i < |u| ==> r[i] == pfx + u[i]
  {
  }

  /** The entry of an exported scalar field: its upper-cased path and its `%v` text. */
  function FlatEntry(f: Field, v: Value, name: string): string
  {
    ToUpper(FieldPath(name, f)) + "=" + Sprint(v)
  }

  function FlatEntries(fs: seq<Field>, vs: seq<Value>, name: string): (r: seq<string>)
    requires |vs| == |fs|
    ensures |r| == |fs| && forall i :: 0 <= i < |fs| ==> r[i] == FlatEntry(fs[i], vs[i], name)
  {
    seq(|fs|, i requires 0 <= i < |fs| => FlatEntry(fs[i], vs[i], name))
  }

  lemma FlatEntriesCons(fs: seq<Field>, vs: seq<Value>, name: string)
    requires |vs| == |fs| && fs != []
    ensures FlatEntries(fs, vs, name) == [FlatEntry(fs[0], vs[0], name)] + FlatEntries(fs[1..], vs[1..], name)
  {
    var r, rest := FlatEntries(fs, vs, name), FlatEntries(fs[1..], vs[1..], name);
    forall i | 1 <= i < |fs| ensures r[i] == rest[i - 1] {
      assert fs[1..][i - 1] == fs[i] && vs[1..][i - 1] == vs[i];
    }
  }

  /** A struct whose fields are all exported scalars yields one entry per field, in declaration
      order, each the upper-cased path and the field's `%v` text. */
  lemma {:induction false} FlatStructEntries(fs: seq<Field>, vs: seq<Value>, name: string)
    requires FieldsEncodable(vs, fs)
    requires forall i :: 0 <= i < |fs| ==> Exported(fs[i]) && IsScalar(fs[i].typ)
    ensures MarshalFields(fs, vs, name) == FlatEntries(fs, vs, name)
    decreases |fs|
  {
    if fs != [] {
      var tfs, tvs := fs[1..], vs[1..];
      assert forall i :: 0 <= i < |tfs| ==> tfs[i] == fs[i + 1];
      MarshalFieldsCons(fs, vs, name);
      FlatStructEntries(tfs, tvs, name);
      FlatFieldEntry(fs[0], vs[0], name);
      FlatEntriesCons(fs, vs, name);
    }
  }

  lemma MarshalFieldsCons(fs: seq<Field>, vs: seq<Value>, name: string)
    requires FieldsEncodable(vs, fs) && fs != []
    ensures GoodFieldName(fs[0].name) && Encodable(vs[0], fs[0].typ) && FieldsEncodable(vs[1..], fs[1..])
    ensures MarshalFields(fs, vs, name) == MarshalField(fs[0], vs[0], name) + MarshalFields(fs[1..], vs[1..], name)
  {
  }

  lemma FlatFieldEntry(f: Field, v: Value, name: string)
    requires Exported(f) && IsScalar(f.typ) && Encodable(v, f.typ)
    ensures MarshalField(f, v, name) == [FlatEntry(f, v, name)]
  {
    assert !IsLowerAscii(f.name[0]);
  }

  /** A non-nil slice of scalars yields exactly one entry, at the upper-cased path, whose value is
      the CSV record of the elements' texts (Csv.RoundTrip reads it back). */
  lemma ScalarSliceEntry(t: Type, v: Value, name: string)
    requires Deref(t).Slice? && IsScalar(Deref(Deref(t).item)) && Encodable(v, t) && !v.NilV?
    ensures MarshalSlice(t, v, name) == [ToUpper(name) + "=" + JoinFields(ScalarTexts(DerefValue(t, v).elems))]
  {
    StripLineEnd(ScalarTexts(DerefValue(t, v).elems));
  }

  /** The entries of a map are the entries of its map entries, one after another, whatever the
      split. */
  lemma {:induction false} MarshalEntriesAppend(e: Type, a: seq<Entry>, b: seq<Entry>, name: string)
    requires EntriesEncodable(e, a) && EntriesEncodable(e, b)
    ensures EntriesEncodable(e, a + b)
    ensures MarshalEntries(e, a + b, name) == MarshalEntries(e, a, name) + MarshalEntries(e, b, name)
    decreases |a|
  {
    EncodableAppend(e, a, b);
    if a == [] {
      EmptyAppend(a, b);
    } else {
      MarshalEntriesCons(e, a, name);
      MarshalEntriesAppend(e, a[1..], b, name);
      MarshalEntriesConsAppend(e, a, b, name);
      ConcatStep(EntryEntries(e, a[0], name), MarshalEntries(e, a[1..], name), MarshalEntries(e, b, name),
        MarshalEntries(e, a, name), MarshalEntries(e, a[1..] + b, name), MarshalEntries(e, a + b, name));
    }
  }

  lemma EmptyAppend(a: seq<Entry>, b: seq<Entry>)
    requires a == []
    ensures a + b == b
  {
  }

  /** From `a == x + ra`, `rest == ra + rb` and `ab == x + rest` follows `ab == a + rb`. */
  lemma ConcatStep(x: seq<string>, ra: seq<string>, rb: seq<string>, a: seq<string>, rest: seq<string>, ab: seq<string>)
    requires a == x + ra && rest == ra + rb && ab == x + rest
    ensures ab == a + rb
  {
  }

  /** The first entry of a, then the rest of a followed by b. */
  lemma MarshalEntriesConsAppend(e: Type, a: seq<Entry>, b: seq<Entry>, name: string)
    requires a != [] && EntriesEncodable(e, a + b) && EntriesEncodable(e, a[1..] + b) && Encodable(a[0].val, e)
    ensures MarshalEntries(e, a + b, name) == EntryEntries(e, a[0], name) + MarshalEntries(e, a[1..] + b, name)
  {
    var ab := a + b;
    assert ab[0] == a[0] && ab[1..] == a[1..] + b;
  }

  lemma EncodableAppend(e: Type, a: seq<Entry>, b: seq<Entry>)
    requires EntriesEncodable(e, a) && EntriesEncodable(e, b)
    ensures EntriesEncodable(e, a + b)
  {
    forall i | 0 <= i < |a + b| ensures Encodable((a + b)[i].val, e) {
      if i < |a| { assert (a + b)[i] == a[i]; } else { assert (a + b)[i] == b[i - |a|]; }
    }
  }

  lemma MarshalEntriesCons(e: Type, es: seq<Entry>, name: string)
    requires EntriesEncodable(e, es) && es != []
    ensures EntriesEncodable(e, es[1..])
    ensures MarshalEntries(e, es, name) == EntryEntries(e, es[0], name) + MarshalEntries(e, es[1..], name)
  {
    assert forall i :: 0 <= i < |es| - 1 ==> es[1..][i] == es[i + 1];
  }

  /** Go visits map entries in no fixed order; every order yields the same entries, possibly in
      another order. */
  lemma {:induction false} EntriesOrderIrrelevant(e: Type, a: seq<Entry>, b: seq<Entry>, name: string)
    requires EntriesEncodable(e, a) && multiset(a) == multiset(b)
    ensures EntriesEncodable(e, b)
    ensures multiset(MarshalEntries(e, a, name)) == multiset(MarshalEntries(e, b, name))
    decreases |a|
  {
    PermutationEncodable(e, a, b);
    if a == [] {
      assert |b| == |multiset(b)| == 0;
    } else {
      var x := a[0];
      var k := IndexOfEntry(x, a, b);
      var pre, post := b[..k], b[k + 1..];
      SplitEncodable(e, b, k);
      EntriesOrderIrrelevant(e, a[1..], pre + post, name);
      MarshalEntriesCons(e, a, name);
      MoveToFront(e, b, k, name);
      MultisetStep(EntryEntries(e, x, name), MarshalEntries(e, a[1..], name), MarshalEntries(e, pre, name),
        MarshalEntries(e, post, name), MarshalEntries(e, pre + post, name));
    }
  }

  /** Moving a block of entries into the middle of a list keeps the multiset of entries. */
  lemma MultisetStep(ex: seq<string>, oa: seq<string>, opre: seq<string>, opost: seq<string>, orest: seq<string>)
    requires orest == opre + opost && multiset(oa) == multiset(orest)
    ensures multiset(ex + oa) == multiset(opre + (ex + opost))
  {
  }

  lemma PermutationEncodable(e: Type, a: seq<Entry>, b: seq<Entry>)
    requires EntriesEncodable(e, a) && multiset(a) == multiset(b)
    ensures EntriesEncodable(e, b)
  {
    forall i | 0 <= i < |b| ensures Encodable(b[i].val, e) {
      assert b[i] in multiset(a);
      var j :| 0 <= j < |a| && a[j] == b[i];
    }
  }

  /** The entries of b are those of b without its k-th entry, with that entry's inserted. */
  lemma MoveToFront(e: Type, b: seq<Entry>, k: nat, name: string)
    requires EntriesEncodable(e, b) && k < |b|
    ensures EntriesEncodable(e, b[..k] + b[k + 1..])
    ensures MarshalEntries(e, b, name) == MarshalEntries(e, b[..k], name) + (EntryEntries(e, b[k], name) + MarshalEntries(e, b[k + 1..], name))
    ensures MarshalEntries(e, b[..k] + b[k + 1..], name) == MarshalEntries(e, b[..k], name) + MarshalEntries(e, b[k + 1..], name)
  {
    var pre, post := b[..k], b[k + 1..];
    SplitEncodable(e, b, k);
    var xpost := [b[k]] + post;
    assert b == pre + xpost;
    assert EntriesEncodable(e, xpost) && xpost[0] == b[k] && xpost[1..] == post;
    MarshalEntriesAppend(e, pre, post, name);
    MarshalEntriesAppend(e, pre, xpost, name);
    MarshalEntriesCons(e, xpost, name);
  }

  /** Where the first entry of a sits in b, a permutation of a; the rest of a is a permutation of
      b without it. */
  lemma IndexOfEntry(x: Entry, a: seq<Entry>, b: seq<Entry>) returns (k: nat)
    requires a != [] && x == a[0] && multiset(a) == multiset(b)
    ensures k < |b| && b[k] == x
    ensures multiset(a[1..]) == multiset(b[..k] + b[k + 1..])
  {
    assert x in multiset(b);
    k :| 0 <= k < |b| && b[k] == x;
    assert b == b[..k] + [x] + b[k + 1..];
    assert a == [x] + a[1..];
    assert multiset(b[..k] + b[k + 1..]) == multiset(b) - multiset{x};
  }

  lemma SplitEncodable(e: Type, b: seq<Entry>, k: nat)
    requires EntriesEncodable(e, b) && k < |b|
    ensures EntriesEncodable(e, b[..k]) && EntriesEncodable(e, b[k + 1..]) && EntriesEncodable(e, [b[k]])
    ensures EntriesEncodable(e, b[..k] + b[k + 1..])
  {
    var post := b[k + 1..];
    assert forall i :: 0 <= i < |post| ==> post[i] == b[k + 1 + i];
    var r := b[..k] + b[k + 1..];
    assert forall i :: 0 <= i < |r| ==> r[i] == (if i < k then b[i] else b[i + 1]);
  }

  // ----- MarshalMap, MarshalMapPfx -----

  predicate AllHaveEquals(es: seq<string>)
  {
    forall i :: 0 <= i < |es| ==> '=' in es[i]
  }

  /** The key of an entry: the text before its first `=`. */
  function EntryKey(e: string): string
    requires '=' in e
  {
    SplitAtEquals(e).value.0
  }

  /** The value of an entry: the text after its first `=`. */
  function EntryValue(e: string): string
    requires '=' in e
  {
    SplitAtEquals(e).value.1
  }

  /** The entries as a map: each split at its first `=`, a later key replacing an earlier one. */
  function EntriesToMap(es: seq<string>): map<string, string>
    requires AllHaveEquals(es)
  {
    if es == [] then map[]
    else
      var last := es[|es| - 1];
      EntriesToMap(es[..|es| - 1])[EntryKey(last) := EntryValue(last)]
  }

  /** Every key of the entries is a key of the map. */
  lemma {:induction false} EntriesToMapHasKeys(es: seq<string>)
    requires AllHaveEquals(es)
    ensures forall i :: 0 <= i < |es| ==> EntryKey(es[i]) in EntriesToMap(es)
  {
    if es != [] {
      var init := es[..|es| - 1];
      EntriesToMapHasKeys(init);
      forall i | 0 <= i < |init| ensures EntryKey(es[i]) in EntriesToMap(es) {
        assert init[i] == es[i];
      }
    }
  }

  /** The map has no key that is not the key of an entry. */
  lemma {:induction false} EntriesToMapOnlyKeys(es: seq<string>, k: string)
    requires AllHaveEquals(es) && k in EntriesToMap(es)
    ensures exists i :: 0 <= i < |es| && EntryKey(es[i]) == k
  {
    var init, last := es[..|es| - 1], es[|es| - 1];
    if k != EntryKey(last) {
      EntriesToMapOnlyKeys(init, k);
      var i :| 0 <= i < |init| && EntryKey(init[i]) == k;
      assert init[i] == es[i];
    }
  }

  /** The last entry with a given key decides its value. */
  lemma {:induction false} LastEntryWins(es: seq<string>, i: nat)
    requires AllHaveEquals(es) && i < |es|
    requires forall j :: i < j < |es| ==> EntryKey(es[j]) != EntryKey(es[i])
    ensures EntryKey(es[i]) in EntriesToMap(es) && EntriesToMap(es)[EntryKey(es[i])] == EntryValue(es[i])
    decreases |es|
  {
    if i < |es| - 1 {
      var init := es[..|es| - 1];
      assert init[i] == es[i];
      forall j | i < j < |init| ensures EntryKey(init[j]) != EntryKey(init[i]) {
        assert init[j] == es[j];
      }
      LastEntryWins(init, i);
    }
  }

  /** MarshalMapPfx (MarshalMap when pfx is ""): the entries of marshal(i, pfx) as a map. On an
      error Go returns an empty map together with the error; here the error alone. */
  function MarshalToMap(t: Type, v: Value, pfx: string): (r: Result<map<string, string>, MarshalError>)
    requires Encodable(v, t)
    ensures r.Err? <==> MarshalRoot(t, v, pfx).Err?
    ensures r.Ok? ==> AllHaveEquals(MarshalRoot(t, v, pfx).value) && r.value == EntriesToMap(MarshalRoot(t, v, pfx).value)
  {
    match MarshalRoot(t, v, pfx)
    case Err(e) => Err(e)
    case Ok(es) =>
      assert AllHaveEquals(es) by {
        forall i | 0 <= i < |es| ensures '=' in es[i] {
          var j :| 0 <= j < |es[i][|pfx|..]| && es[i][|pfx|..][j] == '=';
          assert es[i][|pfx| + j] == '=';
        }
      }
      Ok(EntriesToMap(es))
  }
}
