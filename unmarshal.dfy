/** The decoder (unmarshal.go): fills a destination value from the key store.

    The Go code writes into the destination in place through `reflect.Value.Set` and
    `SetMapIndex`. Here each decoding method takes the destination's current value and returns its
    new value together with the error, while the key store is the object they change. When a
    decode fails, the value returned is what the destination holds at that point in Go: a struct
    keeps the fields decoded before the failure, and a map or slice is left as it was. */
module Unmarshal {
  import opened Wrappers
  import opened Text
  import opened Kinds
  import opened Values
  import opened Csv
  import opened EnvStore
  import opened Marshal

  datatype DecodeError =
    | NotPointer              // "i must be a pointer"
    | NotStructOrMap          // "not struct or map"
    | BadRecord(csv: CsvError) // the CSV reader's error
    | BadNumber(num: NumError) // strconv.Atoi's error
    | UnknownScalar(kind: Kind) // "unknown scalar <kind>"

  // ----- What the decoder accepts -----

  /** A pointer to a map or to a slice. Decoding one as a slice element or map value panics:
      `reflect.MakeMap` and `reflect.MakeSlice` are handed the pointer type. */
  predicate PtrToMapOrSlice(t: Type)
  {
    t.Ptr? && (t.elem.Map? || t.elem.Slice?)
  }

  /** Destination types the decoder is modelled on: no pointer to a map or slice as a slice
      element or map value (Go panics there); no pointer map keys (Go allocates a fresh pointer
      for every key, and values here have no pointer identity to tell them apart); and no
      unexported field of a kind the decoder handles (Go panics when it sets one; excluding them
      all is broader than the panic, which needs an actual write). */
  predicate DecodeSafe(t: Type)
    decreases t
  {
    match t
    case Ptr(e) => DecodeSafe(e)
    case Struct(fs) => FieldsDecodeSafe(fs)
    case Map(k, e) => !k.Ptr? && !PtrToMapOrSlice(e) && DecodeSafe(e)
    case Slice(e) => !PtrToMapOrSlice(e) && DecodeSafe(e)
    case _ => true
  }

  predicate FieldsDecodeSafe(fs: seq<Field>)
    decreases fs
  {
    fs == [] ||
    ((IsValid(fs[0].typ) ==> Exported(fs[0])) && DecodeSafe(fs[0].typ) && FieldsDecodeSafe(fs[1..]))
  }

  predicate FieldDecodeSafe(f: Field)
  {
    (IsValid(f.typ) ==> Exported(f)) && DecodeSafe(f.typ)
  }

  lemma {:induction false} FieldsDecodeSafeAt(fs: seq<Field>, i: nat)
    requires FieldsDecodeSafe(fs) && i < |fs|
    ensures FieldDecodeSafe(fs[i])
    decreases i
  {
    if i > 0 { FieldsDecodeSafeAt(fs[1..], i - 1); }
  }

  // ----- unmarshalScalar -----

  /** unmarshalScalar on a destination that is not a pointer. A bool becomes true when the text
      is "true" in any case and is otherwise left alone; an integer is parsed by Atoi and wrapped
      to its width; a string takes the text; any other kind is an error. On an error the
      destination is unchanged. */
  function SetScalarDirect(t: Type, v: Value, s: string): (r: (Value, Option<DecodeError>))
    ensures HasType(v, t) ==> HasType(r.0, t)
    ensures r.1.Some? ==> r.0 == v
  {
    if IsBool(t) then
      (if ToLower(s) == "true" then BoolV(true) else v, None)
    else if IsInt(t) then
      match Atoi(s)
      case Err(e) => (v, Some(BadNumber(e)))
      case Ok(n) => (IntV(Wrap(t.ik, n)), None)
    else if IsString(t) then (StrV(s), None)
    else (v, Some(UnknownScalar(KindOf(t))))
  }

  /** What unmarshalScalar does with each kind. */
  lemma SetScalarDirectMeaning(t: Type, v: Value, s: string)
    requires HasType(v, t)
    ensures var r := SetScalarDirect(t, v, s);
      (IsBool(t) ==> r.1.None? && (r.0 == BoolV(true) <==> ToLower(s) == "true" || v == BoolV(true))) &&
      (IsInt(t) ==> (r.1.None? <==> Atoi(s).Ok?)) &&
      (IsInt(t) && Atoi(s).Ok? ==> r.0 == IntV(Wrap(t.ik, Atoi(s).value))) &&
      (IsString(t) ==> r == (StrV(s), None)) &&
      (!IsScalar(t) ==> r.1 == Some(UnknownScalar(KindOf(t))))
  {
    if IsBool(t) {
      assert t == Bool && v.BoolV?;
    }
  }

  /** unmarshalScalar: a nil pointer is first allocated (and stays allocated even when the text
      is then rejected), a non-nil one is written through. */
  function SetScalar(t: Type, v: Value, s: string): (r: (Value, Option<DecodeError>))
    ensures HasType(v, t) ==> HasType(r.0, t)
    ensures !IsPtr(t) ==> r == SetScalarDirect(t, v, s)
    ensures IsPtr(t) ==> r.0.PtrV? && r.1 == SetScalarDirect(t.elem, if v.PtrV? then v.target else Zero(t.elem), s).1
  {
    if IsPtr(t) then
      var w := if v.PtrV? then v.target else Zero(t.elem);
      var p := SetScalarDirect(t.elem, w, s);
      (PtrV(p.0), p.1)
    else SetScalarDirect(t, v, s)
  }

  /** A scalar written by the encoder and read back into a fresh destination is the same value,
      for integers in the range of Atoi (64-bit signed). */
  lemma ScalarRoundTrip(t: Type, x: Value)
    requires IsScalar(t) && HasType(x, t)
    requires t.Integer? ==> MinInt64 <= x.i <= MaxInt64
    ensures SetScalarDirect(t, Zero(t), Sprint(x)) == (x, None)
  {
    match t
    case Bool =>
      if x.b {
        assert ToLower("true") == "true";
      } else {
        assert ToLower("false")[0] == 'f';
      }
    case Integer(k) =>
      AtoiItoa(x.i);
      WrapMeaning(k, x.i);
    case Str =>
  }

  /** Atoi is the parser for every integer kind, so a 64-bit unsigned value above the int64 range
      written by the encoder is rejected with a range error when read back. */
  lemma LargeUnsignedRejected(k: IntKind, n: int)
    requires (k == Uint64 || k == Uint) && MaxInt64 < n < Modulus(k)
    ensures SetScalarDirect(Integer(k), Zero(Integer(k)), Sprint(IntV(n))) == (IntV(0), Some(BadNumber(Range)))
  {
    var s := Itoa(n);
    assert s == Digits(n);
    ParseDigitsOfDigits(n);
    assert IsDigit(s[0]);
    assert Atoi(s) == Err(Range);
  }

  /** A bool is never cleared: whatever the text, a true destination stays true. */
  lemma BoolNeverCleared(s: string)
    ensures SetScalarDirect(Bool, BoolV(true), s) == (BoolV(true), None)
  {
  }

  // ----- Map and slice building -----

  /** `SetMapIndex`: the entry for key k now maps to v; an existing entry for k is replaced in
      place, otherwise the entry is added. */
  function SetIndex(es: seq<Entry>, k: Value, v: Value): (r: seq<Entry>)
    ensures Entry(k, v) in r
    ensures forall e :: e in r ==> e == Entry(k, v) || e in es
    ensures forall e :: e in es && e.key != k ==> e in r
    ensures DistinctKeys(es) ==> DistinctKeys(r)
  {
    if es == [] then [Entry(k, v)]
    else if es[0].key == k then
      var r := [Entry(k, v)] + es[1..];
      assert DistinctKeys(es) ==> forall e :: e in es[1..] ==> e.key != k by {
        if DistinctKeys(es) {
          forall e | e in es[1..] ensures e.key != k {
            var j :| 0 <= j < |es[1..]| && es[1..][j] == e;
            assert es[j + 1] == e;
          }
        }
      }
      r
    else
      var t := SetIndex(es[1..], k, v);
      assert forall e :: e in es && e.key != k && e != es[0] ==> e in es[1..];
      var r := [es[0]] + t;
      assert DistinctKeys(es) ==> DistinctKeys(r) by {
        if DistinctKeys(es) {
          assert DistinctKeys(es[1..]) by {
            forall i, j | 0 <= i < j < |es[1..]| ensures es[1..][i].key != es[1..][j].key {
              assert es[1..][i] == es[i + 1] && es[1..][j] == es[j + 1];
            }
          }
          forall j | 0 < j < |r| ensures r[0].key != r[j].key {
            assert r[j] in t;
            if r[j] != Entry(k, v) {
              var m :| 0 <= m < |es[1..]| && es[1..][m] == r[j];
              assert es[m + 1] == r[j];
            }
          }
        }
      }
      r
  }

  lemma SetIndexTyped(es: seq<Entry>, k: Value, v: Value, kt: Type, vt: Type)
    requires HasType(MapV(es), Map(kt, vt)) && HasType(k, kt) && HasType(v, vt)
    ensures HasType(MapV(SetIndex(es, k, v)), Map(kt, vt))
  {
    var r := SetIndex(es, k, v);
    forall i | 0 <= i < |r| ensures HasType(r[i].key, kt) && HasType(r[i].val, vt) {
      assert r[i] in r;
      if r[i] != Entry(k, v) {
        var j :| 0 <= j < |es| && es[j] == r[i];
      }
    }
  }

  /** The value of a key in the store, or "" (what `Get` returns). */
  function Lookup(m: map<string, string>, k: string): string
  {
    if k in m then m[k] else ""
  }

  /** The elements a scalar slice decodes to: each CSV field coerced into a fresh element, in
      order; the first failure is the result. */
  function DecodeScalars(te: Type, fields: seq<string>): (r: Result<seq<Value>, DecodeError>)
    ensures r.Ok? ==> |r.value| == |fields| && forall i :: 0 <= i < |fields| ==> HasType(r.value[i], te)
    ensures r.Ok? ==> forall i :: 0 <= i < |fields| ==> SetScalar(te, Zero(te), fields[i]) == (r.value[i], None)
  {
    if fields == [] then Ok([])
    else
      var init := fields[..|fields| - 1];
      match DecodeScalars(te, init)
      case Err(e) => Err(e)
      case Ok(vs) =>
        var p := SetScalar(te, Zero(te), fields[|fields| - 1]);
        if p.1.Some? then Err(p.1.value)
        else
          assert forall i :: 0 <= i < |init| ==> fields[i] == init[i];
          Ok(vs + [p.0])
  }

  /** The entries a map with scalar values decodes to: the keys, in ascending order, that start
      with the map's path, each giving a key coerced from the rest of the key and a value coerced
      from the stored text; the first failure is the result. */
  function DecodeScalarMap(kt: Type, vt: Type, ks: seq<string>, name: string, left: map<string, string>): (r: Result<seq<Entry>, DecodeError>)
    ensures r.Ok? ==> HasType(MapV(r.value), Map(kt, vt))
  {
    if ks == [] then Ok([])
    else
      match DecodeScalarMap(kt, vt, ks[..|ks| - 1], name, left)
      case Err(e) => Err(e)
      case Ok(es) =>
        var key := ks[|ks| - 1];
        if !HasPrefix(key, name) then Ok(es)
        else
          match DecodeScalarEntry(kt, vt, key, name, Lookup(left, key))
          case Err(e) => Err(e)
          case Ok(x) =>
            SetIndexTyped(es, x.key, x.val, kt, vt);
            Ok(SetIndex(es, x.key, x.val))
  }

  /** The entry one key contributes to a map with scalar values: the key coerced from the rest of
      the key after the map's path, then the value coerced from the text stored under the key. */
  function DecodeScalarEntry(kt: Type, vt: Type, key: string, name: string, text: string): (r: Result<Entry, DecodeError>)
    requires HasPrefix(key, name)
    ensures r.Ok? ==> HasType(r.value.key, kt) && HasType(r.value.val, vt)
    ensures r.Ok? ==> SetScalar(kt, Zero(kt), TrimPrefix(key, name)) == (r.value.key, None)
    ensures r.Ok? ==> SetScalar(vt, Zero(vt), text) == (r.value.val, None)
    ensures r.Err? <==> SetScalar(kt, Zero(kt), TrimPrefix(key, name)).1.Some? ||
                        SetScalar(vt, Zero(vt), text).1.Some?
  {
    var kp := SetScalar(kt, Zero(kt), TrimPrefix(key, name));
    if kp.1.Some? then Err(kp.1.value)
    else
      var vp := SetScalar(vt, Zero(vt), text);
      if vp.1.Some? then Err(vp.1.value) else Ok(Entry(kp.0, vp.0))
  }

  /** A decoding method's value and error as one result. */
  function Outcome<T>(x: T, err: Option<DecodeError>): Result<T, DecodeError>
  {
    if err.Some? then Err(err.value) else Ok(x)
  }

  /** Some key of m starts with p. */
  predicate SomeKeyHasPrefix(m: map<string, string>, p: string)
  {
    exists k :: k in m && HasPrefix(k, p)
  }

  /** m keeps only keys of old, with the same values. */
  predicate SubMap(m: map<string, string>, old_m: map<string, string>)
  {
    forall k :: k in m ==> k in old_m && m[k] == old_m[k]
  }

  lemma DecodeScalarMapErrStep(kt: Type, vt: Type, ks: seq<string>, n: nat, name: string, left: map<string, string>)
    requires n < |ks| && DecodeScalarMap(kt, vt, ks[..n], name, left).Err?
    ensures DecodeScalarMap(kt, vt, ks[..n + 1], name, left) == DecodeScalarMap(kt, vt, ks[..n], name, left)
  {
    TakeStep(ks, n);
  }

  /** Once a prefix of the keys fails to decode, the whole map fails the same way. */
  lemma {:induction false} DecodeScalarMapErrSticks(kt: Type, vt: Type, ks: seq<string>, n: nat, name: string, left: map<string, string>)
    requires n <= |ks| && DecodeScalarMap(kt, vt, ks[..n], name, left).Err?
    ensures DecodeScalarMap(kt, vt, ks, name, left) == DecodeScalarMap(kt, vt, ks[..n], name, left)
    decreases |ks| - n
  {
    if n < |ks| {
      DecodeScalarMapErrStep(kt, vt, ks, n, name, left);
      DecodeScalarMapErrSticks(kt, vt, ks, n + 1, name, left);
    } else {
      TakeAll(ks, n);
    }
  }

  /** What the stored key k contributes to a map with scalar values under the path: nothing when
      it lies elsewhere, otherwise its decoded entry or the error. */
  function KeyItem(kt: Type, vt: Type, k: string, name: string, left: map<string, string>): Option<Result<Entry, DecodeError>>
  {
    if HasPrefix(k, name) then Some(DecodeScalarEntry(kt, vt, k, name, Lookup(left, k))) else None
  }

  /** What each key of the snapshot contributes, in order. */
  function KeyItems(kt: Type, vt: Type, ks: seq<string>, name: string, left: map<string, string>): seq<Option<Result<Entry, DecodeError>>>
  {
    seq(|ks|, i requires 0 <= i < |ks| => KeyItem(kt, vt, ks[i], name, left))
  }

  /** The map built by storing, in order, each contributed entry with `SetMapIndex`; the first
      error is the result. */
  function FoldEntries(ds: seq<Option<Result<Entry, DecodeError>>>): (r: Result<seq<Entry>, DecodeError>)
    ensures r.Ok? ==> DistinctKeys(r.value)
  {
    if ds == [] then Ok([]) else Extend(FoldEntries(ds[..|ds| - 1]), ds[|ds| - 1])
  }

  /** One step of the fold: an earlier error stays, an item that is no entry changes nothing,
      a failed item is the error, an entry is stored. */
  function Extend(prev: Result<seq<Entry>, DecodeError>, d: Option<Result<Entry, DecodeError>>): Result<seq<Entry>, DecodeError>
  {
    match prev
    case Err(e) => Err(e)
    case Ok(es) =>
      if d.None? then Ok(es)
      else if d.value.Err? then Err(d.value.error)
      else Ok(SetIndex(es, d.value.value.key, d.value.value.val))
  }

  /** Item i is a decoded entry and no later item decodes to the same map key: its entry is the
      one `SetMapIndex` leaves in the map. */
  predicate Wins(ds: seq<Option<Result<Entry, DecodeError>>>, i: int)
  {
    0 <= i < |ds| && ds[i].Some? && ds[i].value.Ok? &&
    forall j :: i < j < |ds| && ds[j].Some? && ds[j].value.Ok? ==> ds[j].value.value.key != ds[i].value.value.key
  }

  /** The items of all keys but the last are those of the shorter snapshot. */
  lemma KeyItemsInit(kt: Type, vt: Type, ks: seq<string>, name: string, left: map<string, string>)
    requires ks != []
    ensures KeyItems(kt, vt, ks, name, left)[..|ks| - 1] == KeyItems(kt, vt, ks[..|ks| - 1], name, left)
  {
    var n := |ks| - 1;
    var ds, di := KeyItems(kt, vt, ks, name, left), KeyItems(kt, vt, ks[..n], name, left);
    forall j | 0 <= j < n ensures ds[j] == di[j] {
      assert ks[..n][j] == ks[j];
    }
  }

  /** One more key extends the loop as one step of the fold. */
  lemma DecodeScalarMapExtend(kt: Type, vt: Type, ks: seq<string>, name: string, left: map<string, string>)
    requires ks != []
    ensures DecodeScalarMap(kt, vt, ks, name, left) ==
      Extend(DecodeScalarMap(kt, vt, ks[..|ks| - 1], name, left), KeyItem(kt, vt, ks[|ks| - 1], name, left))
  {
  }

  /** The decoder's loop over the keys is the fold of what each key contributes. */
  lemma {:induction false} DecodeScalarMapFolds(kt: Type, vt: Type, ks: seq<string>, name: string, left: map<string, string>)
    ensures DecodeScalarMap(kt, vt, ks, name, left) == FoldEntries(KeyItems(kt, vt, ks, name, left))
    decreases |ks|
  {
    if ks != [] {
      DecodeScalarMapFolds(kt, vt, ks[..|ks| - 1], name, left);
      KeyItemsInit(kt, vt, ks, name, left);
      DecodeScalarMapExtend(kt, vt, ks, name, left);
      assert KeyItems(kt, vt, ks, name, left)[|ks| - 1] == KeyItem(kt, vt, ks[|ks| - 1], name, left);
    }
  }

  /** The fold succeeds exactly when every contributed item is an entry; otherwise its error is
      that of one item. */
  lemma {:induction false} FoldEntriesOk(ds: seq<Option<Result<Entry, DecodeError>>>)
    ensures FoldEntries(ds).Ok? <==> forall i :: 0 <= i < |ds| && ds[i].Some? ==> ds[i].value.Ok?
    ensures FoldEntries(ds).Err? ==> exists i :: 0 <= i < |ds| && ds[i] == Some(Err(FoldEntries(ds).error))
    decreases |ds|
  {
    if ds != [] {
      var n := |ds| - 1;
      FoldEntriesOk(ds[..n]);
      assert forall i :: 0 <= i < n ==> ds[..n][i] == ds[i];
    }
  }

  /** Two entries of a map with distinct keys that share a key are the same entry. */
  lemma SameKeySameEntry(es: seq<Entry>, a: Entry, b: Entry)
    requires DistinctKeys(es) && a in es && b in es && a.key == b.key
    ensures a == b
  {
    var i :| 0 <= i < |es| && es[i] == a;
    var j :| 0 <= j < |es| && es[j] == b;
  }

  /** A last item that is no entry, or whose key differs, leaves item i the winner of its key. */
  lemma WinsSnoc(ds: seq<Option<Result<Entry, DecodeError>>>, i: nat)
    requires i < |ds| - 1
    ensures var n := |ds| - 1;
      Wins(ds, i) <==> (Wins(ds[..n], i) &&
        (ds[n].Some? && ds[n].value.Ok? ==> ds[n].value.value.key != ds[i].value.value.key))
  {
    var n := |ds| - 1;
    assert forall j :: 0 <= j < n ==> ds[..n][j] == ds[j];
  }

  /** A successful fold holds an entry for the key of contributed entry i. */
  lemma {:induction false} FoldEntriesCoversAt(ds: seq<Option<Result<Entry, DecodeError>>>, i: nat)
    requires FoldEntries(ds).Ok? && i < |ds| && ds[i].Some?
    ensures ds[i].value.Ok? && exists x :: x in FoldEntries(ds).value && x.key == ds[i].value.value.key
    decreases |ds|
  {
    var n := |ds| - 1;
    var init := ds[..n];
    assert FoldEntries(ds) == Extend(FoldEntries(init), ds[n]);
    var es := FoldEntries(init).value;
    var r := FoldEntries(ds).value;
    if i == n {
      var xn := ds[n].value.value;
      assert r == SetIndex(es, xn.key, xn.val);
      assert xn in r;
    } else {
      assert init[i] == ds[i];
      FoldEntriesCoversAt(init, i);
      var y :| y in es && y.key == ds[i].value.value.key;
      if ds[n].None? {
        assert r == es && y in r;
      } else {
        var xn := ds[n].value.value;
        assert r == SetIndex(es, xn.key, xn.val);
        if y.key != xn.key { assert y in r; } else { assert xn in r; }
      }
    }
  }

  /** The entry of every winning item is in a successful fold. */
  lemma {:induction false} FoldEntriesKeepsWinners(ds: seq<Option<Result<Entry, DecodeError>>>)
    requires FoldEntries(ds).Ok?
    ensures forall i :: Wins(ds, i) ==> ds[i].value.value in FoldEntries(ds).value
    decreases |ds|
  {
    if ds != [] {
      var n := |ds| - 1;
      var init := ds[..n];
      FoldEntriesKeepsWinners(init);
      var es := FoldEntries(init).value;
      var r := FoldEntries(ds).value;
      assert FoldEntries(ds) == Extend(Ok(es), ds[n]);
      forall i | Wins(ds, i) ensures ds[i].value.value in r {
        if i < n {
          WinsSnoc(ds, i);
          assert init[i] == ds[i];
          if ds[n].Some? {
            var xn := ds[n].value.value;
            assert r == SetIndex(es, xn.key, xn.val);
          }
        } else {
          assert r == SetIndex(es, ds[n].value.value.key, ds[n].value.value.val);
        }
      }
    }
  }

  /** Every entry of a successful fold is that of a winning item. */
  lemma {:induction false} FoldEntriesOnlyWinners(ds: seq<Option<Result<Entry, DecodeError>>>)
    requires FoldEntries(ds).Ok?
    ensures forall x :: x in FoldEntries(ds).value ==> exists i :: Wins(ds, i) && ds[i] == Some(Ok(x))
    decreases |ds|
  {
    if ds != [] {
      var n := |ds| - 1;
      var init := ds[..n];
      FoldEntriesOnlyWinners(init);
      var es := FoldEntries(init).value;
      var r := FoldEntries(ds).value;
      assert FoldEntries(ds) == Extend(Ok(es), ds[n]);
      forall x | x in r ensures exists i :: Wins(ds, i) && ds[i] == Some(Ok(x)) {
        if ds[n].None? {
          assert x in es;
          var i :| Wins(init, i) && init[i] == Some(Ok(x));
          WinsSnoc(ds, i);
          assert init[i] == ds[i];
        } else {
          var xn := ds[n].value.value;
          assert r == SetIndex(es, xn.key, xn.val);
          if x == xn {
            assert Wins(ds, n);
          } else {
            assert x in es;
            if x.key == xn.key { SameKeySameEntry(r, x, xn); }
            var i :| Wins(init, i) && init[i] == Some(Ok(x));
            WinsSnoc(ds, i);
            assert init[i] == ds[i];
          }
        }
      }
    }
  }

  /** A successful fold holds an entry for the key of every contributed entry, and its entries
      are exactly those of the winning items, so that where several items share a key the last
      one gives the value. */
  lemma FoldEntriesMeaning(ds: seq<Option<Result<Entry, DecodeError>>>)
    requires FoldEntries(ds).Ok?
    ensures DistinctKeys(FoldEntries(ds).value)
    ensures forall i :: 0 <= i < |ds| && ds[i].Some? ==>
      ds[i].value.Ok? && exists x :: x in FoldEntries(ds).value && x.key == ds[i].value.value.key
    ensures forall i :: Wins(ds, i) ==> ds[i].value.value in FoldEntries(ds).value
    ensures forall x :: x in FoldEntries(ds).value ==> exists i :: Wins(ds, i) && ds[i] == Some(Ok(x))
  {
    forall i | 0 <= i < |ds| && ds[i].Some?
      ensures ds[i].value.Ok? && exists x :: x in FoldEntries(ds).value && x.key == ds[i].value.value.key {
      FoldEntriesCoversAt(ds, i);
    }
    FoldEntriesKeepsWinners(ds);
    FoldEntriesOnlyWinners(ds);
  }

  /** The map decodes exactly when every key under its path decodes; otherwise the error is that
      of one such key. */
  lemma DecodeScalarMapOk(kt: Type, vt: Type, ks: seq<string>, name: string, left: map<string, string>)
    ensures var ds := KeyItems(kt, vt, ks, name, left);
      DecodeScalarMap(kt, vt, ks, name, left).Ok? <==> forall i :: 0 <= i < |ds| && ds[i].Some? ==> ds[i].value.Ok?
    ensures var ds := KeyItems(kt, vt, ks, name, left);
      DecodeScalarMap(kt, vt, ks, name, left).Err? ==>
        exists i :: 0 <= i < |ds| && ds[i] == Some(Err(DecodeScalarMap(kt, vt, ks, name, left).error))
  {
    DecodeScalarMapFolds(kt, vt, ks, name, left);
    FoldEntriesOk(KeyItems(kt, vt, ks, name, left));
  }

  /** The decoded map holds an entry for the map key of every key under the path, and its
      entries are exactly those of the keys that win their map key: where several keys decode to
      the same map key, the last in ascending order gives the value. */
  lemma DecodeScalarMapEntries(kt: Type, vt: Type, ks: seq<string>, name: string, left: map<string, string>)
    requires DecodeScalarMap(kt, vt, ks, name, left).Ok?
    ensures var ds, es := KeyItems(kt, vt, ks, name, left), DecodeScalarMap(kt, vt, ks, name, left).value;
      forall i :: 0 <= i < |ds| && ds[i].Some? ==> ds[i].value.Ok? && exists x :: x in es && x.key == ds[i].value.value.key
    ensures var ds, es := KeyItems(kt, vt, ks, name, left), DecodeScalarMap(kt, vt, ks, name, left).value;
      forall i :: Wins(ds, i) ==> ds[i].value.value in es
    ensures var ds, es := KeyItems(kt, vt, ks, name, left), DecodeScalarMap(kt, vt, ks, name, left).value;
      forall x :: x in es ==> exists i :: Wins(ds, i) && ds[i] == Some(Ok(x))
  {
    DecodeScalarMapFolds(kt, vt, ks, name, left);
    FoldEntriesMeaning(KeyItems(kt, vt, ks, name, left));
  }

  /** One more field: its coercion is appended, or its error is the result. */
  lemma DecodeScalarsStep(te: Type, fields: seq<string>, i: nat, vs: seq<Value>)
    requires i < |fields| && DecodeScalars(te, fields[..i]) == Ok(vs)
    ensures DecodeScalars(te, fields[..i + 1]) ==
      var p := SetScalar(te, Zero(te), fields[i]);
      if p.1.Some? then Err(p.1.value) else Ok(vs + [p.0])
  {
    TakeStep(fields, i);
  }

  /** A field that fails to coerce, after fields that all did, is the record's error. */
  lemma DecodeScalarsFailAt(te: Type, fields: seq<string>, i: nat, vs: seq<Value>)
    requires i < |fields| && DecodeScalars(te, fields[..i]) == Ok(vs)
    requires SetScalar(te, Zero(te), fields[i]).1.Some?
    ensures DecodeScalars(te, fields) == Err(SetScalar(te, Zero(te), fields[i]).1.value)
  {
    DecodeScalarsStep(te, fields, i, vs);
    DecodeScalarsErrSticks(te, fields, i + 1);
  }

  /** A field that coerces extends the decoded prefix by its value. */
  lemma DecodeScalarsOkAt(te: Type, fields: seq<string>, i: nat, vs: seq<Value>)
    requires i < |fields| && DecodeScalars(te, fields[..i]) == Ok(vs)
    requires SetScalar(te, Zero(te), fields[i]).1.None?
    ensures DecodeScalars(te, fields[..i + 1]) == Ok(vs + [SetScalar(te, Zero(te), fields[i]).0])
  {
    DecodeScalarsStep(te, fields, i, vs);
  }

  /** Once a prefix of the fields fails to decode, the whole record fails the same way. */
  lemma {:induction false} DecodeScalarsErrSticks(te: Type, fields: seq<string>, n: nat)
    requires n <= |fields| && DecodeScalars(te, fields[..n]).Err?
    ensures DecodeScalars(te, fields) == DecodeScalars(te, fields[..n])
    decreases |fields| - n
  {
    if n < |fields| {
      TakeStep(fields, n);
      DecodeScalarsErrSticks(te, fields, n + 1);
    } else {
      TakeAll(fields, n);
    }
  }

  /** A slice index whose path is a prefix of some key is below 10 to the longest key's length;
      this bounds the probing loop of unmarshalSlice. */
  lemma IndexBelowBound(left: map<string, string>, left0: map<string, string>, name: string, i: nat)
    requires SubMap(left, left0) && SomeKeyHasPrefix(left, IndexPath(name, i))
    ensures i < Pow10(MaxLen(left0.Keys))
  {
    var k :| k in left && HasPrefix(k, IndexPath(name, i));
    assert Itoa(i) == Digits(i);
    assert |Digits(i)| <= |IndexPath(name, i)| <= |k| <= MaxLen(left0.Keys);
    DigitsBound(i, MaxLen(left0.Keys));
  }

  // ----- The decoding walk -----

  /** Fields that unmarshalStruct decodes as plain scalars, each from the key at its own path:
      exported, of a scalar (not pointer) type, with pairwise different upper-cased names. */
  predicate FlatFields(fs: seq<Field>)
  {
    (forall i :: 0 <= i < |fs| ==> Exported(fs[i]) && IsScalar(fs[i].typ)) &&
    (forall i, j :: 0 <= i < j < |fs| ==> ToUpper(fs[i].name) != ToUpper(fs[j].name))
  }

  /** The values of a run of coercions, in order, or the error of the first that failed. */
  function Collect(ps: seq<(Value, Option<DecodeError>)>): (r: Result<seq<Value>, DecodeError>)
    ensures r.Ok? ==> |r.value| == |ps|
  {
    if ps == [] then Ok([])
    else
      match Collect(ps[..|ps| - 1])
      case Err(e) => Err(e)
      case Ok(ws) =>
        var p := ps[|ps| - 1];
        if p.1.Some? then Err(p.1.value) else Ok(ws + [p.0])
  }

  /** A run of coercions succeeds exactly when each one does, and then yields their values; a
      failed run reports the first failure. */
  lemma {:induction false} CollectMeaning(ps: seq<(Value, Option<DecodeError>)>)
    ensures Collect(ps).Ok? <==> forall i :: 0 <= i < |ps| ==> ps[i].1.None?
    ensures Collect(ps).Ok? ==> forall i :: 0 <= i < |ps| ==> Collect(ps).value[i] == ps[i].0
    ensures Collect(ps).Err? ==>
      exists i :: 0 <= i < |ps| && ps[i].1 == Some(Collect(ps).error) && (forall j :: 0 <= j < i ==> ps[j].1.None?)
  {
    if ps != [] {
      var n := |ps| - 1;
      var init := ps[..n];
      assert forall i :: 0 <= i < n ==> init[i] == ps[i];
      CollectMeaning(init);
      if Collect(init).Err? {
        var i :| 0 <= i < n && init[i].1 == Some(Collect(init).error) && (forall j :: 0 <= j < i ==> init[j].1.None?);
        assert ps[i].1 == Some(Collect(ps).error);
      }
    }
  }

  lemma CollectStep(ps: seq<(Value, Option<DecodeError>)>, i: nat, ws: seq<Value>)
    requires i < |ps| && Collect(ps[..i]) == Ok(ws)
    ensures Collect(ps[..i + 1]) == if ps[i].1.Some? then Err(ps[i].1.value) else Ok(ws + [ps[i].0])
  {
    TakeStep(ps, i);
  }

  lemma {:induction false} CollectErrSticks(ps: seq<(Value, Option<DecodeError>)>, n: nat)
    requires n <= |ps| && Collect(ps[..n]).Err?
    ensures Collect(ps) == Collect(ps[..n])
    decreases |ps| - n
  {
    if n < |ps| {
      TakeStep(ps, n);
      CollectErrSticks(ps, n + 1);
    } else {
      TakeAll(ps, n);
    }
  }

  /** One scalar field coerced from the text at its path. */
  function FieldCoercion(f: Field, v: Value, name: string, left: map<string, string>): (Value, Option<DecodeError>)
  {
    SetScalar(f.typ, v, Lookup(left, FieldPath(name, f)))
  }

  /** What unmarshalStruct does to scalar fields whose current values are vs, given the keys left
      when it starts: each field coerced from the text at its path. */
  function FlatCoercions(fs: seq<Field>, vs: seq<Value>, name: string, left: map<string, string>): (r: seq<(Value, Option<DecodeError>)>)
    requires |vs| == |fs|
    ensures |r| == |fs| && forall i :: 0 <= i < |fs| ==> r[i] == FieldCoercion(fs[i], vs[i], name, left)
  {
    seq(|fs|, i requires 0 <= i < |fs| => FieldCoercion(fs[i], vs[i], name, left))
  }

  /** Different field names under one path give different paths. */
  lemma DistinctPaths(name: string, f: Field, g: Field)
    requires ToUpper(f.name) != ToUpper(g.name)
    ensures FieldPath(name, f) != FieldPath(name, g)
  {
    assert FieldPath(name, f)[|name|..] == ToUpper(f.name);
    assert FieldPath(name, g)[|name|..] == ToUpper(g.name);
  }

  /** The field values unmarshalStruct starts from: the struct's own, or zero values when a nil
      pointer is allocated. */
  function StartFields(t: Type, v: Value): (r: seq<Value>)
    requires Deref(t).Struct? && HasType(v, t)
    ensures FieldsHaveTypes(r, Deref(t).fields)
    ensures |r| == |Deref(t).fields| && forall i :: 0 <= i < |r| ==> HasType(r[i], Deref(t).fields[i].typ)
  {
    var r := if !t.Ptr? then v.fields
      else if v.NilV? then ZeroFields(t.elem.fields)
      else assert HasType(v.target, t.elem); v.target.fields;
    FieldsHaveTypesIndexed(r, Deref(t).fields);
    r
  }

  /** The struct value, or pointer to it, that decoded fields make. */
  function StructOutcome(t: Type, r: Result<seq<Value>, DecodeError>): Result<Value, DecodeError>
  {
    match r
    case Ok(ws) => Ok(if IsPtr(t) then PtrV(StructV(ws)) else StructV(ws))
    case Err(e) => Err(e)
  }

  /** unmarshalStruct: a nil pointer is first allocated; then the fields are decoded. */
  method UnmarshalStruct(env: EnvMap, t: Type, v: Value, name: string) returns (nv: Value, err: Option<DecodeError>)
    requires env.Valid() && Deref(t).Struct? && HasType(v, t) && DecodeSafe(t)
    modifies env
    ensures env.Valid() && env.data == old(env.data) && SubMap(env.left, old(env.left))
    ensures HasType(nv, t) && !nv.NilV?
    ensures FlatFields(Deref(t).fields) ==>
      Outcome(nv, err) == StructOutcome(t, Collect(FlatCoercions(Deref(t).fields, StartFields(t, v), name, old(env.left))))
    decreases t, 3
  {
    var fs := Deref(t).fields;
    var s := StartFields(t, v);
    s, err := UnmarshalFields(env, fs, s, name);
    nv := if IsPtr(t) then PtrV(StructV(s)) else StructV(s);
  }

  /** The field loop of unmarshalStruct: the fields are decoded in declaration order until one
      fails; the fields decoded before the failure keep their new values. */
  method UnmarshalFields(env: EnvMap, fs: seq<Field>, vs: seq<Value>, name: string) returns (s: seq<Value>, err: Option<DecodeError>)
    requires env.Valid() && FieldsHaveTypes(vs, fs) && FieldsDecodeSafe(fs)
    modifies env
    ensures env.Valid() && env.data == old(env.data) && SubMap(env.left, old(env.left))
    ensures FieldsHaveTypes(s, fs)
    ensures FlatFields(fs) ==> Outcome(s, err) == Collect(FlatCoercions(fs, vs, name, old(env.left)))
    decreases Struct(fs), 2
  {
    s := vs;
    ghost var left0 := env.left;
    var i := 0;
    err := None;
    while i < |fs|
      invariant 0 <= i <= |fs|
      invariant env.Valid() && env.data == old(env.data) && SubMap(env.left, left0)
      invariant FieldsLoop(fs, vs, s, i, name, env.left, left0)
    {
      ghost var leftBefore := env.left;
      var s', ferr := UnmarshalFieldAt(env, fs, s, i, name);
      FieldsStep(fs, vs, s, s', i, name, leftBefore, env.left, left0, ferr);
      s := s';
      if ferr.Some? {
        err := ferr;
        return;
      }
      i := i + 1;
    }
    FieldsDone(fs, vs, s, name, env.left, left0);
  }

  /** The invariant of the field loop after i fields: the later fields still hold their starting
      values and, when every field is scalar, the fields so far are what Collect makes of their
      coercions while the paths of the later fields are untouched. */
  ghost predicate FieldsLoop(fs: seq<Field>, vs: seq<Value>, s: seq<Value>, i: nat, name: string,
                             left: map<string, string>, left0: map<string, string>)
  {
    i <= |fs| && |vs| == |fs| && FieldsHaveTypes(s, fs) && s[i..] == vs[i..] &&
    (FlatFields(fs) ==> Collect(FlatCoercions(fs, vs, name, left0)[..i]) == Ok(s[..i]) && KeysKept(fs, i, name, left, left0))
  }

  /** One turn of the field loop keeps its invariant, or ends the run with the outcome Collect
      gives. */
  lemma FieldsStep(fs: seq<Field>, vs: seq<Value>, s: seq<Value>, s': seq<Value>, i: nat, name: string,
                   left: map<string, string>, left': map<string, string>, left0: map<string, string>,
                   ferr: Option<DecodeError>)
    requires FieldsLoop(fs, vs, s, i, name, left, left0) && i < |fs|
    requires FieldsHaveTypes(s', fs) && s' == s[i := s'[i]]
    requires IsScalar(fs[i].typ) ==>
      (s'[i], ferr) == FieldCoercion(fs[i], s[i], name, left) && left' == left - {FieldPath(name, fs[i])}
    ensures ferr.None? ==> FieldsLoop(fs, vs, s', i + 1, name, left', left0)
    ensures ferr.Some? && FlatFields(fs) ==> Outcome(s', ferr) == Collect(FlatCoercions(fs, vs, name, left0))
  {
    DropUpdate(s, vs, i, s'[i]);
    if FlatFields(fs) {
      var ps := FlatCoercions(fs, vs, name, left0);
      assert IsScalar(fs[i].typ) && ps[i] == (s'[i], ferr);
      FlatStep(fs, s, ps, i, name, left0, left, left', s'[i], ferr);
    }
  }

  lemma FieldsDone(fs: seq<Field>, vs: seq<Value>, s: seq<Value>, name: string,
                   left: map<string, string>, left0: map<string, string>)
    requires FieldsLoop(fs, vs, s, |fs|, name, left, left0)
    ensures FieldsHaveTypes(s, fs)
    ensures FlatFields(fs) ==> Outcome(s, None) == Collect(FlatCoercions(fs, vs, name, left0))
  {
    if FlatFields(fs) {
      TakeAll(FlatCoercions(fs, vs, name, left0), |fs|);
      TakeAll(s, |fs|);
    }
  }

  /** Field i of the loop, decoded and written back. */
  method UnmarshalFieldAt(env: EnvMap, fs: seq<Field>, s: seq<Value>, i: nat, name: string) returns (s': seq<Value>, err: Option<DecodeError>)
    requires env.Valid() && FieldsHaveTypes(s, fs) && FieldsDecodeSafe(fs) && i < |fs|
    modifies env
    ensures env.Valid() && env.data == old(env.data) && SubMap(env.left, old(env.left))
    ensures FieldsHaveTypes(s', fs) && s' == s[i := s'[i]]
    ensures IsScalar(fs[i].typ) ==>
      (s'[i], err) == FieldCoercion(fs[i], s[i], name, old(env.left)) &&
      env.left == old(env.left) - {FieldPath(name, fs[i])}
    decreases Struct(fs), 1
  {
    FieldsHaveTypesAt(s, fs, i);
    FieldsDecodeSafeAt(fs, i);
    assert fs[i] in fs;
    var fv;
    fv, err := UnmarshalField(env, fs[i], s[i], name);
    FieldsHaveTypesUpdate(s, fs, i, fv);
    s' := s[i := fv];
  }

  /** The fields from i on still find the text they would have found at the start. */
  predicate KeysKept(fs: seq<Field>, i: nat, name: string, left: map<string, string>, left0: map<string, string>)
  {
    forall j :: i <= j < |fs| ==> Lookup(left, FieldPath(name, fs[j])) == Lookup(left0, FieldPath(name, fs[j]))
  }

  /** One turn of the field loop on scalar fields keeps its invariant, or ends the run with the
      error of field i. */
  lemma FlatStep(fs: seq<Field>, s: seq<Value>, ps: seq<(Value, Option<DecodeError>)>, i: nat,
                 name: string, left0: map<string, string>, left: map<string, string>, left': map<string, string>,
                 fv: Value, ferr: Option<DecodeError>)
    requires FlatFields(fs) && i < |fs| == |s| == |ps|
    requires Collect(ps[..i]) == Ok(s[..i]) && KeysKept(fs, i, name, left, left0)
    requires ps[i] == (fv, ferr)
    requires left' == left - {FieldPath(name, fs[i])}
    ensures ferr.Some? ==> Outcome(s[i := fv], ferr) == Collect(ps)
    ensures ferr.None? ==> Collect(ps[..i + 1]) == Ok(s[i := fv][..i + 1])
    ensures KeysKept(fs, i + 1, name, left', left0)
  {
    CollectStep(ps, i, s[..i]);
    forall j | i < j < |fs| ensures Lookup(left', FieldPath(name, fs[j])) == Lookup(left0, FieldPath(name, fs[j])) {
      DistinctPaths(name, fs[i], fs[j]);
    }
    if ferr.Some? {
      CollectErrSticks(ps, i + 1);
    } else {
      assert s[i := fv][..i + 1] == s[..i] + [fv];
    }
  }

  /** One field of unmarshalStruct. A nil pointer of a decodable type is allocated only when some
      remaining key starts with the field's path, and is otherwise skipped; a non-nil pointer is
      skipped. Scalars consume the key at the path; other kinds go to UnmarshalNested. */
  method UnmarshalField(env: EnvMap, f: Field, fv: Value, name: string) returns (nv: Value, err: Option<DecodeError>)
    requires env.Valid() && HasType(fv, f.typ) && FieldDecodeSafe(f)
    modifies env
    ensures env.Valid() && env.data == old(env.data) && SubMap(env.left, old(env.left))
    ensures HasType(nv, f.typ)
    ensures IsPtr(f.typ) && (!fv.NilV? || !SomeKeyHasPrefix(old(env.left), FieldPath(name, f))) ==>
      nv == fv && err.None? && env.left == old(env.left)
    ensures IsPtr(f.typ) && IsValid(f.typ) && fv.NilV? && SomeKeyHasPrefix(old(env.left), FieldPath(name, f)) ==> nv.PtrV?
    ensures IsScalar(f.typ) ==>
      (nv, err) == SetScalar(f.typ, fv, Lookup(old(env.left), FieldPath(name, f))) &&
      env.left == old(env.left) - {FieldPath(name, f)}
    decreases f.typ, 5
  {
    var fn := FieldPath(name, f);
    var ft := f.typ;
    if IsPtr(ft) && IsValid(ft) && fv.NilV? {
      var has := env.HasKeyPfx(fn);
      if !has {
        return fv, None;
      }
      var w: Value;
      ft := ft.elem;
      if IsScalar(ft) {
        var s := env.Get(fn);
        var p := SetScalar(ft, Zero(ft), s);
        w, err := p.0, p.1;
      } else {
        w, err := UnmarshalNested(env, ft, ft, Zero(ft), fn);
      }
      nv := PtrV(w);
    } else if IsScalar(ft) {
      var s := env.Get(fn);
      var p := SetScalar(ft, fv, s);
      nv, err := p.0, p.1;
    } else {
      nv, err := UnmarshalNested(env, ft, ft, fv, fn);
    }
  }

  /** The cases of the decoders' dispatch that recurse: a struct or a map is decoded below
      `path.`, a slice at the path itself; any other kind is left alone. `sel` is the type whose
      kind selects the case: the destination's own type, or, for map values and slice elements,
      the type it points to. */
  method UnmarshalNested(env: EnvMap, t: Type, sel: Type, v: Value, path: string) returns (nv: Value, err: Option<DecodeError>)
    requires env.Valid() && HasType(v, t) && DecodeSafe(t)
    requires sel == t || (sel == Deref(t) && !PtrToMapOrSlice(t))
    modifies env
    ensures env.Valid() && env.data == old(env.data) && SubMap(env.left, old(env.left))
    ensures HasType(nv, t)
    ensures !IsStruct(sel) && !IsMap(sel) && !IsSlice(sel) ==> nv == v && err.None? && env.left == old(env.left)
    decreases t, 4
  {
    if IsStruct(sel) {
      nv, err := UnmarshalStruct(env, t, v, path + ".");
    } else if IsMap(sel) {
      nv, err := UnmarshalMap(env, t, v, path + ".");
    } else if IsSlice(sel) {
      nv, err := UnmarshalSlice(env, t, v, path);
    } else {
      nv, err := v, None;
    }
  }

  /** What unmarshalMap yields for a map with scalar values, given the keys left when it starts. */
  ghost function ScalarMapOutcome(kt: Type, vt: Type, name: string, left: map<string, string>): Result<Value, DecodeError>
  {
    match DecodeScalarMap(kt, vt, SortedKeys(left.Keys), name, left)
    case Ok(es) => Ok(MapV(es))
    case Err(e) => Err(e)
  }

  /** unmarshalMap: builds a new map from the keys, in ascending order, that start with the
      map's path, as they were when decoding the map began. The new map replaces the destination
      only when every entry decoded. */
  method UnmarshalMap(env: EnvMap, t: Type, v: Value, name: string) returns (nv: Value, err: Option<DecodeError>)
    requires env.Valid() && t.Map? && HasType(v, t) && DecodeSafe(t)
    modifies env
    ensures env.Valid() && env.data == old(env.data) && SubMap(env.left, old(env.left))
    ensures HasType(nv, t)
    ensures err.Some? ==> nv == v
    ensures err.None? ==> nv.MapV?
    ensures IsScalar(Deref(t.val)) ==> Outcome(nv, err) == ScalarMapOutcome(t.key, t.val, name, old(env.left))
    decreases t, 3
  {
    var ks := env.Keys();
    var es, kerr := UnmarshalMapKeys(env, t, ks, name);
    if kerr.Some? {
      return v, kerr;
    }
    nv, err := MapV(es), None;
  }

  /** The loop of unmarshalMap over the listed keys: the entries built so far, or the first
      failure. */
  method UnmarshalMapKeys(env: EnvMap, t: Type, ks: seq<string>, name: string) returns (es: seq<Entry>, err: Option<DecodeError>)
    requires env.Valid() && t.Map? && DecodeSafe(t)
    requires StrictlySorted(ks) && forall k :: k in ks ==> k in env.left
    modifies env
    ensures env.Valid() && env.data == old(env.data) && SubMap(env.left, old(env.left))
    ensures HasType(MapV(es), t)
    ensures IsScalar(Deref(t.val)) ==> Outcome(es, err) == DecodeScalarMap(t.key, t.val, ks, name, old(env.left))
    decreases t, 2
  {
    ghost var left0 := env.left;
    es := [];
    var j := 0;
    while j < |ks|
      invariant 0 <= j <= |ks|
      invariant env.Valid() && env.data == old(env.data) && SubMap(env.left, left0)
      invariant MapKeysLoop(t, ks, j, name, es, env.left, left0)
    {
      var xerr;
      es, xerr := UnmarshalMapKey(env, t, ks, j, name, es, left0);
      if xerr.Some? {
        return es, xerr;
      }
      j := j + 1;
    }
    MapKeysDone(t, ks, name, es, env.left, left0);
    err := None;
  }

  /** The invariant of unmarshalMap's loop after j keys: the entries are typed and, for scalar
      values, are what the keys so far decode to, with exactly those of them that start with the
      map's path consumed. */
  ghost predicate MapKeysLoop(t: Type, ks: seq<string>, j: nat, name: string, es: seq<Entry>,
                              left: map<string, string>, left0: map<string, string>)
    requires t.Map?
  {
    j <= |ks| && HasType(MapV(es), t) &&
    (IsScalar(Deref(t.val)) ==>
      DecodeScalarMap(t.key, t.val, ks[..j], name, left0) == Ok(es) && LeftAfter(left, left0, ks[..j], name))
  }

  lemma MapKeysDone(t: Type, ks: seq<string>, name: string, es: seq<Entry>,
                    left: map<string, string>, left0: map<string, string>)
    requires t.Map? && MapKeysLoop(t, ks, |ks|, name, es, left, left0)
    ensures HasType(MapV(es), t)
    ensures IsScalar(Deref(t.val)) ==> Outcome(es, None) == DecodeScalarMap(t.key, t.val, ks, name, left0)
  {
    TakeAll(ks, |ks|);
  }

  /** Key j of unmarshalMap's loop: skipped unless it starts with the map's path, otherwise
      decoded and added to the entries. */
  method UnmarshalMapKey(env: EnvMap, t: Type, ks: seq<string>, j: nat, name: string, es: seq<Entry>, ghost left0: map<string, string>)
    returns (es': seq<Entry>, err: Option<DecodeError>)
    requires env.Valid() && t.Map? && DecodeSafe(t)
    requires j < |ks| && StrictlySorted(ks) && ks[j] in left0 && SubMap(env.left, left0)
    requires MapKeysLoop(t, ks, j, name, es, env.left, left0)
    modifies env
    ensures env.Valid() && env.data == old(env.data) && SubMap(env.left, left0)
    ensures HasType(MapV(es'), t)
    ensures IsScalar(Deref(t.val)) && err.Some? ==> DecodeScalarMap(t.key, t.val, ks, name, left0) == Err(err.value)
    ensures err.None? ==> MapKeysLoop(t, ks, j + 1, name, es', env.left, left0)
    decreases t, 1
  {
    ghost var scalar := IsScalar(Deref(t.val));
    var key := ks[j];
    es', err := es, None;
    if !HasPrefix(key, name) {
      if scalar {
        ScalarMapSkip(t.key, t.val, ks, j, name, left0);
        LeftAfterNext(env.left, left0, ks, j, name);
      }
    } else {
      if scalar {
        KeyStillLeft(ks, j, env.left, left0, name);
      }
      ghost var leftBefore := env.left;
      var x;
      x, err := UnmarshalMapEntry(env, t, key, name);
      if err.Some? {
        if scalar { ScalarMapFail(t.key, t.val, ks, j, name, left0); }
        return;
      }
      if scalar {
        ScalarMapStep(t.key, t.val, ks, j, name, left0, es, x);
        LeftAfterNext(leftBefore, left0, ks, j, name);
      }
      SetIndexTyped(es, x.key, x.val, t.key, t.val);
      es' := SetIndex(es, x.key, x.val);
    }
  }

  lemma ScalarMapSkip(kt: Type, vt: Type, ks: seq<string>, j: nat, name: string, left: map<string, string>)
    requires j < |ks| && !HasPrefix(ks[j], name)
    ensures DecodeScalarMap(kt, vt, ks[..j + 1], name, left) == DecodeScalarMap(kt, vt, ks[..j], name, left)
  {
    TakeStep(ks, j);
  }

  lemma ScalarMapStep(kt: Type, vt: Type, ks: seq<string>, j: nat, name: string, left: map<string, string>, es: seq<Entry>, x: Entry)
    requires j < |ks| && HasPrefix(ks[j], name)
    requires DecodeScalarMap(kt, vt, ks[..j], name, left) == Ok(es)
    requires DecodeScalarEntry(kt, vt, ks[j], name, Lookup(left, ks[j])) == Ok(x)
    ensures DecodeScalarMap(kt, vt, ks[..j + 1], name, left) == Ok(SetIndex(es, x.key, x.val))
  {
    TakeStep(ks, j);
  }

  lemma ScalarMapFail(kt: Type, vt: Type, ks: seq<string>, j: nat, name: string, left: map<string, string>)
    requires j < |ks| && HasPrefix(ks[j], name)
    requires DecodeScalarMap(kt, vt, ks[..j], name, left).Ok?
    requires DecodeScalarEntry(kt, vt, ks[j], name, Lookup(left, ks[j])).Err?
    ensures DecodeScalarMap(kt, vt, ks, name, left) == Err(DecodeScalarEntry(kt, vt, ks[j], name, Lookup(left, ks[j])).error)
  {
    TakeStep(ks, j);
    DecodeScalarMapErrSticks(kt, vt, ks, j + 1, name, left);
  }

  /** The remaining keys after the map loop has visited ks: those of left0 except the visited
      ones with the map's path. */
  ghost predicate LeftAfter(left: map<string, string>, left0: map<string, string>, ks: seq<string>, name: string)
  {
    forall k :: k in left <==> k in left0 && !(k in ks && HasPrefix(k, name))
  }

  lemma LeftAfterNext(left: map<string, string>, left0: map<string, string>, ks: seq<string>, j: nat, name: string)
    requires j < |ks| && LeftAfter(left, left0, ks[..j], name)
    ensures HasPrefix(ks[j], name) ==> LeftAfter(left - {ks[j]}, left0, ks[..j + 1], name)
    ensures !HasPrefix(ks[j], name) ==> LeftAfter(left, left0, ks[..j + 1], name)
  {
    TakeStep(ks, j);
  }

  /** One key of unmarshalMap's loop: the map key is coerced from the rest of the key after the
      map's path; a scalar value consumes the key itself, any other value is decoded below the
      rest of the key. */
  method UnmarshalMapEntry(env: EnvMap, t: Type, key: string, name: string) returns (x: Entry, err: Option<DecodeError>)
    requires env.Valid() && t.Map? && DecodeSafe(t) && HasPrefix(key, name)
    modifies env
    ensures env.Valid() && env.data == old(env.data) && SubMap(env.left, old(env.left))
    ensures HasType(x.key, t.key) && HasType(x.val, t.val)
    ensures IsScalar(Deref(t.val)) ==> Outcome(x, err) == DecodeScalarEntry(t.key, t.val, key, name, Lookup(old(env.left), key))
    ensures IsScalar(Deref(t.val)) && err.None? ==> env.left == old(env.left) - {key}
    decreases t, 0
  {
    var sfx := TrimPrefix(key, name);
    var kp := SetScalar(t.key, Zero(t.key), sfx);
    var val := Zero(t.val);
    if kp.1.Some? {
      return Entry(kp.0, val), kp.1;
    }
    if IsScalar(Deref(t.val)) {
      var s := env.Get(key);
      var p := SetScalar(t.val, val, s);
      val, err := p.0, p.1;
    } else {
      val, err := UnmarshalNested(env, t.val, Deref(t.val), val, sfx);
    }
    x := Entry(kp.0, val);
  }

  /** In the map loop over scalar values, the key at position j has not been consumed yet: the
      keys are distinct and only earlier ones were taken. */
  lemma KeyStillLeft(ks: seq<string>, j: nat, left: map<string, string>, left0: map<string, string>, name: string)
    requires j < |ks| && StrictlySorted(ks) && ks[j] in left0
    requires SubMap(left, left0) && LeftAfter(left, left0, ks[..j], name)
    ensures ks[j] in left && left[ks[j]] == left0[ks[j]]
    ensures Lookup(left, ks[j]) == Lookup(left0, ks[j])
  {
    if ks[j] in ks[..j] {
      var i :| 0 <= i < j && ks[..j][i] == ks[j];
      assert Less(ks[i], ks[j]);
      LessIrreflexive(ks[j]);
    }
  }

  /** What unmarshalSlice yields for a slice of scalars whose path holds the text s: the CSV
      record in s, each field coerced to the element type. */
  function ScalarSliceOutcome(te: Type, s: string): Result<Value, DecodeError>
  {
    match ReadRecord(s)
    case Err(e) => Err(BadRecord(e))
    case Ok(rec) =>
      match DecodeScalars(te, rec)
      case Ok(vs) => Ok(SliceV(vs))
      case Err(e) => Err(e)
  }

  /** unmarshalSlice. A slice of scalars reads the value at its path as one CSV record and
      coerces each field into a fresh element. Any other slice decodes element 0, 1, 2, ... for
      as long as some remaining key starts with `path.i`. The new slice replaces the destination
      only when every element decoded. */
  method UnmarshalSlice(env: EnvMap, t: Type, v: Value, name: string) returns (nv: Value, err: Option<DecodeError>)
    requires env.Valid() && t.Slice? && HasType(v, t) && DecodeSafe(t)
    modifies env
    ensures env.Valid() && env.data == old(env.data) && SubMap(env.left, old(env.left))
    ensures HasType(nv, t)
    ensures err.Some? ==> nv == v
    ensures IsScalar(Deref(t.item)) ==>
      env.left == old(env.left) - {name} &&
      Outcome(nv, err) == ScalarSliceOutcome(t.item, Lookup(old(env.left), name))
    ensures !IsScalar(Deref(t.item)) && err.None? ==>
      nv.SliceV? && IndicesPresent(old(env.left), name, |nv.elems|) &&
      !SomeKeyHasPrefix(env.left, IndexPath(name, |nv.elems|))
    decreases t, 3
  {
    if IsScalar(Deref(t.item)) {
      nv, err := UnmarshalScalarSlice(env, t, v, name);
    } else {
      nv, err := UnmarshalElems(env, t, v, name);
    }
  }

  /** Every element has the element type. */
  predicate ElemsTyped(elems: seq<Value>, e: Type)
  {
    forall j :: 0 <= j < |elems| ==> HasType(elems[j], e)
  }

  /** Some key of m starts with each of `name.0` ... `name.(n-1)`. */
  predicate IndicesPresent(m: map<string, string>, name: string, n: nat)
  {
    forall j: nat :: j < n ==> SomeKeyHasPrefix(m, IndexPath(name, j))
  }

  lemma IndicesPresentNext(m: map<string, string>, name: string, n: nat)
    requires IndicesPresent(m, name, n) && SomeKeyHasPrefix(m, IndexPath(name, n))
    ensures IndicesPresent(m, name, n + 1)
  {
  }

  /** A remaining key under `name.i` keeps the index within the bound and extends the run of
      indices present in the store the loop started from. */
  lemma NextIndexPresent(left: map<string, string>, left0: map<string, string>, name: string, i: nat)
    requires SubMap(left, left0) && SomeKeyHasPrefix(left, IndexPath(name, i)) && IndicesPresent(left0, name, i)
    ensures i < Pow10(MaxLen(left0.Keys)) && IndicesPresent(left0, name, i + 1)
  {
    IndexBelowBound(left, left0, name, i);
    var k :| k in left && HasPrefix(k, IndexPath(name, i));
    assert k in left0;
    IndicesPresentNext(left0, name, i);
  }

  lemma ElemsTypedAppend(elems: seq<Value>, e: Type, x: Value)
    requires ElemsTyped(elems, e) && HasType(x, e)
    ensures ElemsTyped(elems + [x], e)
  {
  }

  /** The first branch of unmarshalSlice: the elements of a slice of scalars come from one CSV
      record stored at the slice's path. */
  method UnmarshalScalarSlice(env: EnvMap, t: Type, v: Value, name: string) returns (nv: Value, err: Option<DecodeError>)
    requires env.Valid() && t.Slice? && HasType(v, t)
    modifies env
    ensures env.Valid() && env.data == old(env.data) && env.left == old(env.left) - {name}
    ensures HasType(nv, t)
    ensures err.Some? ==> nv == v
    ensures Outcome(nv, err) == ScalarSliceOutcome(t.item, Lookup(old(env.left), name))
  {
    var e := t.item;
    var s := env.Get(name);
    match ReadRecord(s) {
      case Err(ce) =>
        return v, Some(BadRecord(ce));
      case Ok(rec) =>
        var r := DecodeRecord(e, rec);
        match r {
          case Err(de) => return v, Some(de);
          case Ok(vs) => return SliceV(vs), None;
        }
    }
  }

  /** The loop over the fields of the record: each field is coerced into a fresh element and
      appended, and the first failure ends the loop. */
  method DecodeRecord(e: Type, rec: seq<string>) returns (r: Result<seq<Value>, DecodeError>)
    ensures r == DecodeScalars(e, rec)
  {
    var vs: seq<Value> := [];
    var i := 0;
    while i < |rec|
      invariant 0 <= i <= |rec|
      invariant DecodeScalars(e, rec[..i]) == Ok(vs)
    {
      var p := SetScalar(e, Zero(e), rec[i]);
      if p.1.Some? {
        DecodeScalarsFailAt(e, rec, i, vs);
        return Err(p.1.value);
      }
      DecodeScalarsOkAt(e, rec, i, vs);
      vs := vs + [p.0];
      i := i + 1;
    }
    TakeAll(rec, i);
    return Ok(vs);
  }

  /** The second branch of unmarshalSlice: element i is decoded below `path.i` while some
      remaining key starts with that. The loop ends because an index needs at least as many
      digits as the keys are long, so there are finitely many candidates. */
  method UnmarshalElems(env: EnvMap, t: Type, v: Value, name: string) returns (nv: Value, err: Option<DecodeError>)
    requires env.Valid() && t.Slice? && HasType(v, t) && DecodeSafe(t)
    modifies env
    ensures env.Valid() && env.data == old(env.data) && SubMap(env.left, old(env.left))
    ensures HasType(nv, t)
    ensures err.Some? ==> nv == v
    ensures err.None? ==>
      nv.SliceV? && IndicesPresent(old(env.left), name, |nv.elems|) &&
      !SomeKeyHasPrefix(env.left, IndexPath(name, |nv.elems|))
    decreases t, 2
  {
    var e := t.item;
    ghost var left0 := env.left;
    ghost var bound := MaxLen(left0.Keys);
    var elems: seq<Value> := [];
    var i := 0;
    while true
      invariant env.Valid() && env.data == old(env.data) && SubMap(env.left, left0)
      invariant |elems| == i <= Pow10(bound)
      invariant ElemsTyped(elems, e)
      invariant IndicesPresent(left0, name, i)
      decreases Pow10(bound) - i
    {
      var pfx := IndexPath(name, i);
      var has := env.HasKeyPfx(pfx);
      if !has {
        break;
      }
      NextIndexPresent(env.left, left0, name, i);
      var val, verr := UnmarshalNested(env, e, Deref(e), Zero(e), pfx);
      if verr.Some? {
        return v, verr;
      }
      ElemsTypedAppend(elems, e, val);
      elems := elems + [val];
      i := i + 1;
    }
    nv, err := SliceV(elems), None;
  }

  /** UnmarshalEnv(i, env, pfx): the destination must be a pointer; the store is built from the
      entries that start with pfx, and a struct destination is decoded from it. A pointer to a map
      panics in the source and is excluded, as is a nil root, which cannot be set. */
  method UnmarshalEnv(t: Type, v: Value, entries: seq<string>, pfx: string) returns (nv: Value, err: Option<DecodeError>)
    requires HasType(v, t) && DecodeSafe(t)
    requires !(t.Ptr? && t.elem.Map?)
    requires t.Ptr? && t.elem.Struct? ==> v.PtrV?
    ensures HasType(nv, t)
    ensures !t.Ptr? ==> nv == v && err == Some(DecodeError.NotPointer)
    ensures t.Ptr? && !t.elem.Struct? ==> nv == v && err == Some(DecodeError.NotStructOrMap)
    ensures t.Ptr? && t.elem.Struct? ==> nv.PtrV?
    ensures t.Ptr? && t.elem.Struct? && FlatFields(t.elem.fields) ==>
      Outcome(nv, err) == StructOutcome(t, Collect(FlatCoercions(t.elem.fields, StartFields(t, v), "", ParseEnv(entries, pfx))))
  {
    if !IsPtr(t) {
      return v, Some(DecodeError.NotPointer);
    }
    var env := new EnvMap(entries, pfx);
    if IsStruct(t.elem) {
      nv, err := UnmarshalStruct(env, t, v, "");
    } else {
      nv, err := v, Some(DecodeError.NotStructOrMap);
    }
  }
}
