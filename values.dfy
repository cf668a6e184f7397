/** Values the transcoder reads and writes (what `reflect.Value` holds), their typing against
    a descriptor, zero values (`reflect.New(t).Elem()`), integer conversion (`Value.Convert`) and
    the `%v` formatting of scalars. */
module Values {
  import opened Text
  import opened Kinds

  /** A map value lists its entries in the order Go's map iteration happens to yield them. */
  datatype Value =
    | BoolV(b: bool)
    | IntV(i: int)
    | StrV(s: string)
    | NilV
    | PtrV(target: Value)
    | StructV(fields: seq<Value>)
    | MapV(entries: seq<Entry>)
    | SliceV(elems: seq<Value>)
    | OpaqueV

  datatype Entry = Entry(key: Value, val: Value)

  // ----- Integer widths and conversion -----

  /** 2 to the width of k (`int` and `uint` are 64 bits wide). */
  function Modulus(k: IntKind): nat
  {
    match k
    case Int8 | Uint8 => 0x100
    case Int16 | Uint16 => 0x1_0000
    case Int32 | Uint32 => 0x1_0000_0000
    case _ => 0x1_0000_0000_0000_0000
  }

  predicate Signed(k: IntKind)
  {
    k == Int || k == Int8 || k == Int16 || k == Int32 || k == Int64
  }

  predicate InRange(k: IntKind, i: int)
  {
    if Signed(k) then -(Modulus(k) / 2) <= i < Modulus(k) / 2 else 0 <= i < Modulus(k)
  }

  /** `reflect.ValueOf(i).Convert(t)` from int to an integer kind: keeps the low bits, read as
      two's complement for signed kinds. */
  function Wrap(k: IntKind, i: int): (r: int)
    ensures InRange(k, r)
  {
    var u := LowBits(k, i);
    if Signed(k) && u >= Modulus(k) / 2 then u - Modulus(k) else u
  }

  /** i modulo 2 to the width of k. */
  function LowBits(k: IntKind, i: int): (u: int)
    ensures 0 <= u < Modulus(k)
  {
    match k
    case Int8 | Uint8 => i % 0x100
    case Int16 | Uint16 => i % 0x1_0000
    case Int32 | Uint32 => i % 0x1_0000_0000
    case _ => i % 0x1_0000_0000_0000_0000
  }

  /** The converted value is congruent to the original modulo 2 to the width, and a value already
      in range is kept. */
  lemma WrapMeaning(k: IntKind, i: int)
    ensures LowBits(k, Wrap(k, i)) == LowBits(k, i)
    ensures InRange(k, i) ==> Wrap(k, i) == i
  {
    if Signed(k) { SignedWrap(k, i); } else { UnsignedWrap(k, i); }
  }

  lemma SignedWrap(k: IntKind, i: int)
    requires Signed(k)
    ensures LowBits(k, Wrap(k, i)) == LowBits(k, i)
    ensures InRange(k, i) ==> Wrap(k, i) == i
  {
    match k {
      case Int => SignedWidth(i, 0x1_0000_0000_0000_0000, Wrap(k, i));
      case Int8 => SignedWidth(i, 0x100, Wrap(k, i));
      case Int16 => SignedWidth(i, 0x1_0000, Wrap(k, i));
      case Int32 => SignedWidth(i, 0x1_0000_0000, Wrap(k, i));
      case Int64 => SignedWidth(i, 0x1_0000_0000_0000_0000, Wrap(k, i));
    }
  }

  lemma UnsignedWrap(k: IntKind, i: int)
    requires !Signed(k)
    ensures LowBits(k, Wrap(k, i)) == LowBits(k, i)
    ensures InRange(k, i) ==> Wrap(k, i) == i
  {
    match k {
      case Uint => UnsignedWidth(i, 0x1_0000_0000_0000_0000, Wrap(k, i));
      case Uint8 => UnsignedWidth(i, 0x100, Wrap(k, i));
      case Uint16 => UnsignedWidth(i, 0x1_0000, Wrap(k, i));
      case Uint32 => UnsignedWidth(i, 0x1_0000_0000, Wrap(k, i));
      case Uint64 => UnsignedWidth(i, 0x1_0000_0000_0000_0000, Wrap(k, i));
    }
  }

  /** Two's complement reading of the low bits, for a width whose modulus is m. */
  lemma SignedWidth(i: int, m: int, w: int)
    requires m == 0x100 || m == 0x1_0000 || m == 0x1_0000_0000 || m == 0x1_0000_0000_0000_0000
    requires w == (if i % m >= m / 2 then i % m - m else i % m)
    ensures w % m == i % m
    ensures -(m / 2) <= i < m / 2 ==> w == i
  {
    if m == 0x100 {
    } else if m == 0x1_0000 {
    } else if m == 0x1_0000_0000 {
    } else {
    }
  }

  lemma UnsignedWidth(i: int, m: int, w: int)
    requires m == 0x100 || m == 0x1_0000 || m == 0x1_0000_0000 || m == 0x1_0000_0000_0000_0000
    requires w == i % m
    ensures w % m == i % m
    ensures 0 <= i < m ==> w == i
  {
    if m == 0x100 {
    } else if m == 0x1_0000 {
    } else if m == 0x1_0000_0000 {
    } else {
    }
  }

  // ----- Typing -----

  /** v is a value of type t. Map keys are pairwise distinct. */
  predicate HasType(v: Value, t: Type)
    decreases t
  {
    match t
    case Bool => v.BoolV?
    case Integer(k) => v.IntV? && InRange(k, v.i)
    case Str => v.StrV?
    case Ptr(e) => v.NilV? || (v.PtrV? && HasType(v.target, e))
    case Struct(fs) => v.StructV? && FieldsHaveTypes(v.fields, fs)
    case Map(k, e) =>
      v.MapV? &&
      (forall i :: 0 <= i < |v.entries| ==> HasType(v.entries[i].key, k) && HasType(v.entries[i].val, e)) &&
      DistinctKeys(v.entries)
    case Slice(e) => v.SliceV? && forall i :: 0 <= i < |v.elems| ==> HasType(v.elems[i], e)
    case Interface => v.OpaqueV?
    case Other(_) => v.OpaqueV?
  }

  predicate FieldsHaveTypes(vs: seq<Value>, fs: seq<Field>)
    decreases fs
  {
    |vs| == |fs| && (fs == [] || (HasType(vs[0], fs[0].typ) && FieldsHaveTypes(vs[1..], fs[1..])))
  }

  lemma {:induction false} FieldsHaveTypesAt(vs: seq<Value>, fs: seq<Field>, i: nat)
    requires FieldsHaveTypes(vs, fs) && i < |fs|
    ensures |vs| == |fs| && HasType(vs[i], fs[i].typ)
    decreases i
  {
    if i > 0 { FieldsHaveTypesAt(vs[1..], fs[1..], i - 1); }
  }

  lemma {:induction false} FieldsHaveTypesUpdate(vs: seq<Value>, fs: seq<Field>, i: nat, w: Value)
    requires FieldsHaveTypes(vs, fs) && i < |fs| && HasType(w, fs[i].typ)
    ensures FieldsHaveTypes(vs[i := w], fs)
    decreases i
  {
    if i > 0 {
      FieldsHaveTypesUpdate(vs[1..], fs[1..], i - 1, w);
      assert vs[i := w][1..] == vs[1..][i - 1 := w];
    }
  }

  /** The fields' typing, position by position. */
  lemma FieldsHaveTypesIndexed(vs: seq<Value>, fs: seq<Field>)
    requires FieldsHaveTypes(vs, fs)
    ensures |vs| == |fs| && forall i :: 0 <= i < |fs| ==> HasType(vs[i], fs[i].typ)
  {
    forall i | 0 <= i < |fs| ensures HasType(vs[i], fs[i].typ) {
      FieldsHaveTypesAt(vs, fs, i);
    }
  }

  predicate DistinctKeys(es: seq<Entry>)
  {
    forall i, j :: 0 <= i < j < |es| ==> es[i].key != es[j].key
  }

  // ----- Zero values (reflect.New(t).Elem()) -----

  function Zero(t: Type): (r: Value)
    ensures HasType(r, t)
    decreases t
  {
    match t
    case Bool => BoolV(false)
    case Integer(_) => IntV(0)
    case Str => StrV("")
    case Ptr(_) => NilV
    case Struct(fs) => StructV(ZeroFields(fs))
    case Map(_, _) => MapV([])
    case Slice(_) => SliceV([])
    case Interface => OpaqueV
    case Other(_) => OpaqueV
  }

  function ZeroFields(fs: seq<Field>): (r: seq<Value>)
    ensures FieldsHaveTypes(r, fs)
    decreases fs
  {
    if fs == [] then [] else [Zero(fs[0].typ)] + ZeroFields(fs[1..])
  }

  /** The zero value of each field, position by position. */
  lemma {:induction false} ZeroFieldsIndexed(fs: seq<Field>)
    ensures |ZeroFields(fs)| == |fs| && forall i :: 0 <= i < |fs| ==> ZeroFields(fs)[i] == Zero(fs[i].typ)
    decreases |fs|
  {
    if fs != [] {
      ZeroFieldsIndexed(fs[1..]);
    }
  }

  // ----- fmt's %v for scalars -----

  /** `fmt.Sprint` of a scalar value: `true`/`false`, the decimal integer, or the raw string. */
  function Sprint(v: Value): string
  {
    match v
    case BoolV(b) => if b then "true" else "false"
    case IntV(i) => Itoa(i)
    case StrV(s) => s
    case _ => ""
  }
}
