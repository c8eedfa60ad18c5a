/** The element types of `packages/ndarray-js/src/dtype.ts`: the nine
    dtypes, the typed-array class each one is stored in, and `getDType`,
    which reads the dtype back from a typed array's class. */
module JsDType {
  import opened Wrappers

  /** The `DType` enum; `int64` and `uint64` are commented out in the
      source and are therefore not dtypes. */
  datatype DType =
    | Float32 | Float64 | Int32 | Uint8 | Uint16 | Uint32 | Int8 | Int16 | Bool

  /** The class of a typed array. `Other` stands for every class the source
      does not list (`BigInt64Array`, `Uint8ClampedArray`, ...). */
  datatype ArrayKind =
    | Float32Array | Float64Array | Int32Array | Uint8Array | Uint16Array
    | Uint32Array | Int8Array | Int16Array | Other

  const UnknownArrayType := "Unknown array type"

  /** `DataTypeToArrayConstructor`: `bool` is stored as `Uint8Array`, like
      `uint8`. */
  function ArrayConstructor(d: DType): (k: ArrayKind)
    ensures k != Other
    ensures k == Uint8Array <==> d == Uint8 || d == Bool
  {
    match d
    case Float32 => Float32Array
    case Float64 => Float64Array
    case Int32 => Int32Array
    case Uint8 => Uint8Array
    case Uint16 => Uint16Array
    case Uint32 => Uint32Array
    case Int8 => Int8Array
    case Int16 => Int16Array
    case Bool => Uint8Array
  }

  /** `getDType`: the `instanceof` cascade; any other class throws. */
  function GetDType(k: ArrayKind): (r: Result<DType>)
    ensures r.Failure? <==> k == Other
    ensures r.Failure? ==> r.error == UnknownArrayType
    ensures r.Success? ==> r.value != Bool
  {
    match k
    case Float32Array => Success(Float32)
    case Float64Array => Success(Float64)
    case Int32Array => Success(Int32)
    case Uint8Array => Success(Uint8)
    case Uint16Array => Success(Uint16)
    case Uint32Array => Success(Uint32)
    case Int8Array => Success(Int8)
    case Int16Array => Success(Int16)
    case Other => Failure(UnknownArrayType)
  }

  /** `getDType` inverts the constructor table on the eight numeric dtypes,
      while a `bool` buffer reads back as `uint8`. */
  lemma GetDTypeInverts(d: DType)
    ensures d != Bool ==> GetDType(ArrayConstructor(d)) == Success(d)
    ensures d == Bool ==> GetDType(ArrayConstructor(d)) == Success(Uint8)
  {
  }

  /** The constructor table is one-to-one except that `bool` and `uint8`
      share a class. */
  lemma ArrayConstructorShared(d: DType, e: DType)
    ensures ArrayConstructor(d) == ArrayConstructor(e)
        <==> d == e || (d in {Uint8, Bool} && e in {Uint8, Bool})
  {
  }

  /** Every listed class comes from exactly one numeric dtype. */
  lemma ArrayConstructorOnto(k: ArrayKind)
    requires k != Other
    ensures GetDType(k).Success? && ArrayConstructor(GetDType(k).value) == k
  {
  }
}
