/** Type classification (is.go). A closed datatype of type descriptors stands in for
    `reflect.Type`; `KindOf` plays `Type.Kind()`, and each classifier compares that kind against
    one or more `reflect.Kind` constants, as the Go predicates do. */
module Kinds {
  import opened Text

  /** The integer kinds. `Int` and `Uint` are 64 bits wide (a 64-bit platform). */
  datatype IntKind = Int | Int8 | Int16 | Int32 | Int64 | Uint | Uint8 | Uint16 | Uint32 | Uint64

  /** Kinds that no predicate of is.go accepts. */
  datatype OtherKind = Uintptr | Float32 | Float64 | Complex64 | Complex128 | Array | Chan | Func | UnsafePointer

  datatype Type =
    | Bool
    | Integer(ik: IntKind)
    | Str
    | Ptr(elem: Type)
    | Struct(fields: seq<Field>)
    | Map(key: Type, val: Type)
    | Slice(item: Type)
    | Interface
    | Other(other: OtherKind)

  /** A struct field: its Go name and its type. */
  datatype Field = Field(name: string, typ: Type)

  /** `reflect.Kind`. */
  datatype Kind =
    | KBool | KInt | KInt8 | KInt16 | KInt32 | KInt64
    | KUint | KUint8 | KUint16 | KUint32 | KUint64 | KUintptr
    | KFloat32 | KFloat64 | KComplex64 | KComplex128
    | KArray | KChan | KFunc | KInterface | KMap | KPtr | KSlice | KString | KStruct
    | KUnsafePointer

  function IntKindOf(k: IntKind): Kind
  {
    match k
    case Int => KInt
    case Int8 => KInt8
    case Int16 => KInt16
    case Int32 => KInt32
    case Int64 => KInt64
    case Uint => KUint
    case Uint8 => KUint8
    case Uint16 => KUint16
    case Uint32 => KUint32
    case Uint64 => KUint64
  }

  function OtherKindOf(k: OtherKind): Kind
  {
    match k
    case Uintptr => KUintptr
    case Float32 => KFloat32
    case Float64 => KFloat64
    case Complex64 => KComplex64
    case Complex128 => KComplex128
    case Array => KArray
    case Chan => KChan
    case Func => KFunc
    case UnsafePointer => KUnsafePointer
  }

  /** `Type.Kind()`. */
  function KindOf(t: Type): Kind
  {
    match t
    case Bool => KBool
    case Integer(k) => IntKindOf(k)
    case Str => KString
    case Ptr(_) => KPtr
    case Struct(_) => KStruct
    case Map(_, _) => KMap
    case Slice(_) => KSlice
    case Interface => KInterface
    case Other(k) => OtherKindOf(k)
  }

  // Each classifier of is.go compares `t.Kind()` with one or more kinds. They are stated here on
  // the descriptor's shape, which is cheaper to reason about; ClassifiersFollowKind proves that
  // each one holds for exactly the kinds its Go counterpart lists.

  predicate IsBool(t: Type) { t.Bool? }

  predicate IsInt(t: Type) { t.Integer? }

  predicate IsString(t: Type) { t.Str? }

  predicate IsStruct(t: Type) { t.Struct? }

  predicate IsMap(t: Type) { t.Map? }

  predicate IsSlice(t: Type) { t.Slice? }

  predicate IsInterface(t: Type) { t.Interface? }

  predicate IsPtr(t: Type) { t.Ptr? }

  predicate IsScalar(t: Type) { IsBool(t) || IsInt(t) || IsString(t) }

  /** `t.Elem()` for a pointer, the type itself otherwise: one pointer layer removed. */
  function Deref(t: Type): (r: Type)
    ensures IsPtr(t) ==> r == t.elem
    ensures !IsPtr(t) ==> r == t
  {
    if t.Ptr? then t.elem else t
  }

  /** `isValid`: after at most one pointer layer, a scalar, struct, slice or map. */
  predicate IsValid(t: Type)
  {
    var u := if IsPtr(t) then t.elem else t;
    IsScalar(u) || IsStruct(u) || IsSlice(u) || IsMap(u)
  }

  // ----- What the classification means -----

  /** The kinds each classifier accepts, as is.go lists them: isInt the ten integer kinds (not
      Uintptr, not the floats), and each other classifier its one kind. */
  lemma ClassifiersFollowKind(t: Type)
    ensures IsBool(t) <==> KindOf(t) == KBool
    ensures IsInt(t) <==> KindOf(t) in {KInt, KInt8, KInt16, KInt32, KInt64, KUint, KUint8, KUint16, KUint32, KUint64}
    ensures IsString(t) <==> KindOf(t) == KString
    ensures IsStruct(t) <==> KindOf(t) == KStruct
    ensures IsMap(t) <==> KindOf(t) == KMap
    ensures IsSlice(t) <==> KindOf(t) == KSlice
    ensures IsInterface(t) <==> KindOf(t) == KInterface
    ensures IsPtr(t) <==> KindOf(t) == KPtr
  {
    match t
    case Integer(k) => {
      match k
      case Int =>
      case Int8 =>
      case Int16 =>
      case Int32 =>
      case Int64 =>
      case Uint =>
      case Uint8 =>
      case Uint16 =>
      case Uint32 =>
      case Uint64 =>
    }
    case Other(k) => {
      match k
      case Uintptr =>
      case Float32 =>
      case Float64 =>
      case Complex64 =>
      case Complex128 =>
      case Array =>
      case Chan =>
      case Func =>
      case UnsafePointer =>
    }
    case _ =>
  }

  /** isScalar is the disjunction of the three scalar classifiers, i.e. bool, integers and string. */
  lemma ScalarMeansBoolIntOrString(t: Type)
    ensures IsScalar(t) <==> (IsBool(t) || IsInt(t) || IsString(t))
    ensures IsScalar(t) <==> (t.Bool? || t.Integer? || t.Str?)
  {
  }

  /** Each single-kind classifier tests a different kind, so at most one of them holds. */
  lemma SingleKindsExclusive(t: Type)
    ensures IsBool(t) ==> !IsString(t) && !IsStruct(t) && !IsMap(t) && !IsSlice(t) && !IsInterface(t) && !IsPtr(t)
    ensures IsString(t) ==> !IsStruct(t) && !IsMap(t) && !IsSlice(t) && !IsInterface(t) && !IsPtr(t)
    ensures IsStruct(t) ==> !IsMap(t) && !IsSlice(t) && !IsInterface(t) && !IsPtr(t)
    ensures IsMap(t) ==> !IsSlice(t) && !IsInterface(t) && !IsPtr(t)
    ensures IsSlice(t) ==> !IsInterface(t) && !IsPtr(t)
    ensures IsInterface(t) ==> !IsPtr(t)
  {
  }

  /** A pointer type is never dispatched as a scalar, struct, map or slice: the callers must
      dereference it first. */
  lemma PtrIsNotDispatched(e: Type)
    ensures !IsScalar(Ptr(e)) && !IsStruct(Ptr(e)) && !IsMap(Ptr(e)) && !IsSlice(Ptr(e))
  {
  }

  /** isValid looks through exactly one pointer layer: a pointer to a non-pointer type is valid
      iff that type is, a pointer to a pointer never is, and neither is an interface. */
  lemma ValidUnwrapsOnePointer(t: Type)
    ensures !IsPtr(t) ==> (IsValid(Ptr(t)) <==> IsValid(t))
    ensures !IsValid(Ptr(Ptr(t)))
    ensures !IsValid(Interface) && !IsValid(Ptr(Interface))
    ensures IsValid(t) <==> (IsScalar(Deref(t)) || IsStruct(Deref(t)) || IsSlice(Deref(t)) || IsMap(Deref(t)))
  {
  }

  // ----- Well-formed descriptors -----

  /** Go field names are non-empty identifiers; this model takes them to start with an ASCII letter,
      so "starts with a lower-case letter" and "unexported" coincide. */
  predicate GoodFieldName(n: string)
  {
    |n| > 0 && (IsLowerAscii(n[0]) || IsUpperAscii(n[0]))
  }

  predicate Exported(f: Field)
  {
    GoodFieldName(f.name) && IsUpperAscii(f.name[0])
  }

  /** Descriptors the model handles: field names as above, and map keys of a scalar kind (the encoder
      formats keys with fmt.Sprint, modelled for scalars only). */
  predicate WellFormed(t: Type)
    decreases t
  {
    match t
    case Ptr(e) => WellFormed(e)
    case Struct(fs) => FieldsWellFormed(fs)
    case Map(k, v) => IsScalar(k) && WellFormed(v)
    case Slice(e) => WellFormed(e)
    case _ => true
  }

  predicate FieldsWellFormed(fs: seq<Field>)
    decreases fs
  {
    fs == [] || (GoodFieldName(fs[0].name) && WellFormed(fs[0].typ) && FieldsWellFormed(fs[1..]))
  }

  lemma {:induction false} FieldsWellFormedAt(fs: seq<Field>, i: nat)
    requires FieldsWellFormed(fs) && i < |fs|
    ensures GoodFieldName(fs[i].name) && WellFormed(fs[i].typ)
    decreases i
  {
    if i > 0 { FieldsWellFormedAt(fs[1..], i - 1); }
  }
}
