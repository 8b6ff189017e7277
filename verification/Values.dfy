/** Values, error codes and byte strings shared by every part of the store. */
module Values {
  datatype Option<+T> = None | Some(value: T)

  datatype Result<+T> = Ok(value: T) | Err(error: ErrorCode)

  /** The error codes that the modelled operations of either implementation can return. */
  datatype ErrorCode =
    | UnmappedError
    | FileNotFound
    | KvsFileReadError
    | KvsHashFileReadError
    | JsonParserError
    | JsonGeneratorError
    | PhysicalStorageFailure
    | IntegrityCorrupted
    | ValidationFailed
    | KeyNotFound
    | KeyDefaultNotFound
    | InvalidSnapshotId
    | InvalidInstanceId
    | InvalidValueType
    | MutexLockFailed
    | InstanceParametersMismatch

  newtype byte = x: int | 0 <= x < 0x100
  type Bytes = seq<byte>

  const I32_MIN: int := -0x8000_0000
  const I32_MAX: int := 0x7FFF_FFFF
  const U32_MAX: int := 0xFFFF_FFFF
  const I64_MIN: int := -0x8000_0000_0000_0000
  const I64_MAX: int := 0x7FFF_FFFF_FFFF_FFFF
  const U64_MAX: int := 0xFFFF_FFFF_FFFF_FFFF

  type i32 = x: int | I32_MIN <= x <= I32_MAX
  type u32 = x: int | 0 <= x <= U32_MAX
  type i64 = x: int | I64_MIN <= x <= I64_MAX
  type u64 = x: int | 0 <= x <= U64_MAX

  /** m / 2^k. */
  function Fraction(m: int, k: nat): real {
    if k == 0 then m as real else Fraction(m, k - 1) / 2.0
  }

  ghost predicate IsBinary(r: real) {
    exists m: int, k: nat :: Fraction(m, k) == r
  }

  /** The numbers with a finite binary expansion: every integer and every binary64 number is one. */
  type Binary = r: real | IsBinary(r) witness Fraction(0, 0)

  function Whole(n: int): (r: Binary)
    ensures r == n as real
  {
    assert Fraction(n, 0) == n as real;
    n as real
  }

  /** A number as a JSON tree holds it. A finite number is its value, so the two binary64 zeros,
      which compare equal in the source, are one number here. */
  datatype Number = Finite(r: Binary) | Infinite(negative: bool) | NotANumber

  datatype KvsValue =
    | I32(i32: i32)
    | U32(u32: u32)
    | I64(i64: i64)
    | U64(u64: u64)
    | F64(f64: Number)
    | Boolean(b: bool)
    | String(s: string)
    | Null
    | Array(items: seq<KvsValue>)
    | Object(fields: KvsMap)

  type KvsMap = map<string, KvsValue>

  datatype JsonValue =
    | JNumber(number: Number)
    | JBoolean(flag: bool)
    | JString(text: string)
    | JNull
    | JArray(elements: seq<JsonValue>)
    | JObject(members: map<string, JsonValue>)
}
