/** The tagged JSON form of stored values as the Rust backend writes and reads it, and the text
    layer under it. */
module JsonCodec {
  import opened Values
  import opened Binary64

  // ---------- The conversions

  function Tagged(tag: string, payload: JsonValue): JsonValue {
    JObject(map["t" := JString(tag), "v" := payload])
  }

  datatype Type = TI32 | TU32 | TI64 | TU64 | TF64 | TBool | TStr | TNull | TArr | TObj

  function TypeOf(v: KvsValue): Type {
    match v
    case I32(_) => TI32
    case U32(_) => TU32
    case I64(_) => TI64
    case U64(_) => TU64
    case F64(_) => TF64
    case Boolean(_) => TBool
    case String(_) => TStr
    case Null => TNull
    case Array(_) => TArr
    case Object(_) => TObj
  }

  function TagOf(t: Type): string {
    match t
    case TI32 => "i32"
    case TU32 => "u32"
    case TI64 => "i64"
    case TU64 => "u64"
    case TF64 => "f64"
    case TBool => "bool"
    case TStr => "str"
    case TNull => "null"
    case TArr => "arr"
    case TObj => "obj"
  }

  function TypeOfTag(tag: string): (r: Option<Type>)
    ensures r.Some? ==> TagOf(r.value) == tag
  {
    if tag == "i32" then Some(TI32)
    else if tag == "u32" then Some(TU32)
    else if tag == "i64" then Some(TI64)
    else if tag == "u64" then Some(TU64)
    else if tag == "f64" then Some(TF64)
    else if tag == "bool" then Some(TBool)
    else if tag == "str" then Some(TStr)
    else if tag == "null" then Some(TNull)
    else if tag == "arr" then Some(TArr)
    else if tag == "obj" then Some(TObj)
    else None
  }

  /** The ten tags are distinct. */
  lemma TagsAreDistinct(t: Type)
    ensures TypeOfTag(TagOf(t)) == Some(t)
  {
  }

  /** `From<KvsValue> for JsonValue`. */
  function Encode(v: KvsValue): JsonValue
    decreases v, 1
  {
    Tagged(TagOf(TypeOf(v)), Payload(v))
  }

  function Payload(v: KvsValue): JsonValue
    decreases v, 0
  {
    match v
    case I32(n) => JNumber(FromInt(n))
    case U32(n) => JNumber(FromInt(n))
    case I64(n) => JNumber(FromInt(n))
    case U64(n) => JNumber(FromInt(n))
    case F64(x) => JNumber(x)
    case Boolean(b) => JBoolean(b)
    case String(s) => JString(s)
    case Null => JNull
    case Array(items) => JArray(seq(|items|, i requires 0 <= i < |items| => Encode(items[i])))
    case Object(fields) => JObject(map k | k in fields :: Encode(fields[k]))
  }

  /** `From<JsonValue> for KvsValue`: total, with everything ill-tagged read as `Null`. */
  function Decode(j: JsonValue): KvsValue
    decreases j, 1
  {
    match j
    case JObject(obj) =>
      if "t" in obj && "v" in obj && obj["t"].JString? then
        match TypeOfTag(obj["t"].text)
        case Some(t) => DecodeAs(t, obj["v"])
        case None => Null
      else
        Object(map k | k in obj && k != "t" && k != "v" :: Decode(obj[k]))
    case _ => Null
  }

  function DecodeAs(t: Type, value: JsonValue): KvsValue
    decreases value, 0
  {
    match (t, value)
    case (TI32, JNumber(x)) => I32(ToInt(x, I32_MIN, I32_MAX))
    case (TU32, JNumber(x)) => U32(ToInt(x, 0, U32_MAX))
    case (TI64, JNumber(x)) => I64(ToInt(x, I64_MIN, I64_MAX))
    case (TU64, JNumber(x)) => U64(ToInt(x, 0, U64_MAX))
    case (TF64, JNumber(x)) => F64(x)
    case (TBool, JBoolean(b)) => Boolean(b)
    case (TStr, JString(s)) => String(s)
    case (TNull, JNull) => Null
    case (TArr, JArray(elements)) =>
      Array(seq(|elements|, i requires 0 <= i < |elements| => Decode(elements[i])))
    case (TObj, JObject(members)) => Object(map k | k in members :: Decode(members[k]))
    case _ => Null
  }

  // ---------- The written form and what is read, spelled out

  /** The object that is written for a value: exactly the members "t" and "v", the tag of its type and
      its payload, a number being the nearest double. */
  lemma WrittenForm(v: KvsValue)
    ensures Encode(v).JObject? && Encode(v).members.Keys == {"t", "v"}
    ensures var tag, p := Encode(v).members["t"], Encode(v).members["v"];
            match v
            case I32(n) => tag == JString("i32") && p == JNumber(Finite(Whole(SignedRound(n))))
            case U32(n) => tag == JString("u32") && p == JNumber(Finite(Whole(SignedRound(n))))
            case I64(n) => tag == JString("i64") && p == JNumber(Finite(Whole(SignedRound(n))))
            case U64(n) => tag == JString("u64") && p == JNumber(Finite(Whole(SignedRound(n))))
            case F64(x) => tag == JString("f64") && p == JNumber(x)
            case Boolean(b) => tag == JString("bool") && p == JBoolean(b)
            case String(s) => tag == JString("str") && p == JString(s)
            case Null => tag == JString("null") && p == JNull
            case Array(items) =>
              && tag == JString("arr") && p.JArray? && |p.elements| == |items|
              && forall i | 0 <= i < |items| :: p.elements[i] == Encode(items[i])
            case Object(fields) =>
              && tag == JString("obj") && p.JObject? && p.members.Keys == fields.Keys
              && forall k | k in fields :: p.members[k] == Encode(fields[k])
  {
  }

  /** An object that is read by its tag: it has the members "t" and "v", and "t" is a string. */
  predicate IsTagged(members: map<string, JsonValue>) {
    "t" in members && "v" in members && members["t"].JString?
  }

  /** The payload is of the kind that the tag names. */
  predicate PayloadFits(tag: string, p: JsonValue) {
    || (tag in ["i32", "u32", "i64", "u64", "f64"] && p.JNumber?)
    || (tag == "bool" && p.JBoolean?)
    || (tag == "str" && p.JString?)
    || (tag == "null" && p.JNull?)
    || (tag == "arr" && p.JArray?)
    || (tag == "obj" && p.JObject?)
  }

  /** How each tag is read over a payload of its kind. */
  lemma ReadByTag(members: map<string, JsonValue>)
    requires IsTagged(members)
    ensures var tag, p, r := members["t"].text, members["v"], Decode(JObject(members));
            && (p.JNumber? ==>
                  && (tag == "i32" ==> r == I32(ToInt(p.number, -0x8000_0000, 0x7FFF_FFFF)))
                  && (tag == "u32" ==> r == U32(ToInt(p.number, 0, 0xFFFF_FFFF)))
                  && (tag == "i64" ==> r == I64(ToInt(p.number, -0x8000_0000_0000_0000, 0x7FFF_FFFF_FFFF_FFFF)))
                  && (tag == "u64" ==> r == U64(ToInt(p.number, 0, 0xFFFF_FFFF_FFFF_FFFF)))
                  && (tag == "f64" ==> r == F64(p.number)))
            && (p.JBoolean? && tag == "bool" ==> r == Boolean(p.flag))
            && (p.JString? && tag == "str" ==> r == String(p.text))
            && (p.JArray? && tag == "arr" ==>
                  && r.Array? && |r.items| == |p.elements|
                  && forall i | 0 <= i < |p.elements| :: r.items[i] == Decode(p.elements[i]))
            && (p.JObject? && tag == "obj" ==>
                  && r.Object? && r.fields.Keys == p.members.Keys
                  && forall k | k in p.members :: r.fields[k] == Decode(p.members[k]))
  {
  }

  /** Everything else is Null: a tree that is no object, an unknown tag, and a payload of another kind;
      an object that is not read by a tag is a map without the keys "t" and "v". */
  lemma ReadOtherwise(j: JsonValue)
    ensures !j.JObject? ==> Decode(j) == Null
    ensures j.JObject? && IsTagged(j.members) && !PayloadFits(j.members["t"].text, j.members["v"]) ==>
              Decode(j) == Null
    ensures j.JObject? && !IsTagged(j.members) ==>
              && Decode(j).Object? && Decode(j).fields.Keys == j.members.Keys - {"t", "v"}
              && forall k | k in Decode(j).fields :: Decode(j).fields[k] == Decode(j.members[k])
  {
  }

  // ---------- What a round trip does to a value

  /** The value with each 64-bit integer moved to the nearest one that survives binary64. */
  function Rounded(v: KvsValue): KvsValue {
    match v
    case I64(n) => I64(Through(n, I64_MIN, I64_MAX))
    case U64(n) => U64(Through(n, 0, U64_MAX))
    case Array(items) => Array(seq(|items|, i requires 0 <= i < |items| => Rounded(items[i])))
    case Object(fields) => Object(map k | k in fields :: Rounded(fields[k]))
    case _ => v
  }

  function RoundedMap(m: KvsMap): (r: KvsMap)
    ensures r.Keys == m.Keys && forall k | k in m :: r[k] == Rounded(m[k])
    ensures Rounded(Object(m)) == Object(r)
  {
    Rounded(Object(m)).fields
  }

  lemma DecodeOfTagged(t: Type, payload: JsonValue)
    ensures Decode(Tagged(TagOf(t), payload)) == DecodeAs(t, payload)
  {
    TagsAreDistinct(t);
  }

  lemma RoundTripOfLeaf(v: KvsValue)
    requires !v.Array? && !v.Object?
    ensures DecodeAs(TypeOf(v), Payload(v)) == Rounded(v)
  {
    match v
    case I32(n) => IntegerTypesThrough(n);
    case U32(n) => IntegerTypesThrough(n);
    case _ =>
  }

  lemma RoundTripOfArray(items: seq<KvsValue>)
    requires forall i | 0 <= i < |items| :: Decode(Encode(items[i])) == Rounded(items[i])
    ensures DecodeAs(TArr, Payload(Array(items))) == Rounded(Array(items))
  {
  }

  lemma RoundTripOfObject(fields: KvsMap)
    requires forall k | k in fields :: Decode(Encode(fields[k])) == Rounded(fields[k])
    ensures DecodeAs(TObj, Payload(Object(fields))) == Rounded(Object(fields))
  {
    assert DecodeAs(TObj, Payload(Object(fields))).fields == Rounded(Object(fields)).fields;
  }

  /** Decoding the encoding of any value, nested objects with the keys "t" and "v" included. */
  lemma {:induction false} RoundTrip(v: KvsValue)
    ensures Decode(Encode(v)) == Rounded(v)
    decreases v
  {
    DecodeOfTagged(TypeOf(v), Payload(v));
    match v
    case Array(items) =>
      forall i | 0 <= i < |items| { RoundTrip(items[i]); }
      RoundTripOfArray(items);
    case Object(fields) =>
      forall k | k in fields { RoundTrip(fields[k]); }
      RoundTripOfObject(fields);
    case _ =>
      RoundTripOfLeaf(v);
  }

  lemma {:induction false} RoundedTwice(v: KvsValue)
    ensures Rounded(Rounded(v)) == Rounded(v)
  {
    match v
    case I64(n) => ThroughMonotoneAndStable(n, n, I64_MIN, I64_MAX);
    case U64(n) => ThroughMonotoneAndStable(n, n, 0, U64_MAX);
    case Array(items) =>
      forall i | 0 <= i < |items| { RoundedTwice(items[i]); }
    case Object(fields) =>
      forall k | k in fields
        ensures Rounded(Rounded(fields[k])) == Rounded(fields[k])
      {
        RoundedTwice(fields[k]);
      }
    case _ =>
  }

  /** Every 64-bit integer in the tree has at most 53 significant bits or is its type's maximum. */
  ghost predicate IntegersSurvive(v: KvsValue) {
    match v
    case I64(n) => Representable(Magnitude(n)) || n == I64_MAX
    case U64(n) => Representable(n) || n == U64_MAX
    case Array(items) => forall i | 0 <= i < |items| :: IntegersSurvive(items[i])
    case Object(fields) => forall k | k in fields :: IntegersSurvive(fields[k])
    case _ => true
  }

  /** Every 64-bit integer in the tree lies within plus or minus 2^53. */
  predicate IntegersSmall(v: KvsValue) {
    match v
    case I64(n) => -TWO53 <= n <= TWO53
    case U64(n) => n <= TWO53
    case Array(items) => forall i | 0 <= i < |items| :: IntegersSmall(items[i])
    case Object(fields) => forall k | k in fields :: IntegersSmall(fields[k])
    case _ => true
  }

  lemma SmallIsRepresentable(n: nat)
    requires n <= TWO53
    ensures Representable(n)
  {
    assert Pow2(0) == 1 && Pow2(1) == 2;
    if n == TWO53 {
      assert Scaled(n, TWO52, 1);
    } else {
      assert Scaled(n, n, 0);
    }
  }

  lemma {:induction false} SmallIntegersSurvive(v: KvsValue)
    requires IntegersSmall(v)
    ensures IntegersSurvive(v)
  {
    match v
    case I64(n) => SmallIsRepresentable(Magnitude(n));
    case U64(n) => SmallIsRepresentable(n);
    case Array(items) =>
      forall i | 0 <= i < |items| { SmallIntegersSurvive(items[i]); }
    case Object(fields) =>
      forall k | k in fields { SmallIntegersSurvive(fields[k]); }
    case _ =>
  }

  /** The maximum of each 64-bit type is no binary64 number, but saturation gives it back. */
  lemma MaximaSurvive()
    ensures Through(I64_MAX, I64_MIN, I64_MAX) == I64_MAX
    ensures Through(U64_MAX, 0, U64_MAX) == U64_MAX
  {
    assert Pow2(10) == 1024 && Pow2(11) == 2048;
    UlpExactly(I64_MAX, 10);
    UlpExactly(U64_MAX, 11);
    ThroughIsClamped(I64_MAX, I64_MIN, I64_MAX);
    ThroughIsClamped(U64_MAX, 0, U64_MAX);
  }

  lemma IntegerSurvives(n: int, lo: int, hi: int)
    requires lo <= n <= hi && lo <= 0 <= hi
    requires Representable(-lo) && Through(hi, lo, hi) == hi
    ensures Through(n, lo, hi) == n <==> Representable(Magnitude(n)) || n == hi
  {
    var a := Magnitude(n);
    ThroughIsClamped(n, lo, hi);
    RoundIsRepresentable(a);
    if Representable(a) {
      RoundOfRepresentable(a);
    }
    if n < 0 {
      RoundMonotone(-n, -lo);
      RoundOfRepresentable(-lo);
    }
  }

  lemma IntegersOfLeaf(v: KvsValue)
    requires !v.Array? && !v.Object?
    ensures Rounded(v) == v <==> IntegersSurvive(v)
  {
    match v
    case I64(n) =>
      assert Scaled(-I64_MIN, TWO52, 11) by { assert Pow2(11) == 2048; }
      MaximaSurvive();
      IntegerSurvives(n, I64_MIN, I64_MAX);
    case U64(n) =>
      assert Scaled(0, 0, 0);
      MaximaSurvive();
      IntegerSurvives(n, 0, U64_MAX);
    case _ =>
  }

  lemma {:induction false} UnroundedIffSurvives(v: KvsValue)
    ensures Rounded(v) == v <==> IntegersSurvive(v)
  {
    match v
    case Array(items) =>
      forall i | 0 <= i < |items| { UnroundedIffSurvives(items[i]); }
      assert Rounded(v) == v <==> forall i | 0 <= i < |items| :: Rounded(v).items[i] == items[i];
    case Object(fields) =>
      forall k | k in fields { UnroundedIffSurvives(fields[k]); }
      assert Rounded(v) == v <==> forall k | k in fields :: Rounded(v).fields[k] == fields[k];
    case _ =>
      IntegersOfLeaf(v);
  }

  /** The round trip gives the same value back exactly for the trees whose integers survive,
      among them every tree with integers within plus or minus 2^53. */
  lemma RoundTripIsExact(v: KvsValue)
    ensures Decode(Encode(v)) == v <==> IntegersSurvive(v)
    ensures IntegersSmall(v) ==> Decode(Encode(v)) == v
  {
    RoundTrip(v);
    UnroundedIffSurvives(v);
    if IntegersSmall(v) { SmallIntegersSurvive(v); }
  }

  // ---------- The text layer

  /** The JSON library and UTF-8. `order` stands for the hash map's iteration order, which can
      make two prints of one tree differ. */
  datatype TextCodec = TextCodec(
    utf8: Bytes -> bool,
    render: (JsonValue, nat) -> Option<Bytes>,
    parse: Bytes -> Option<JsonValue>)
  {
    /** Printed text is valid UTF-8 and parses back to the printed tree. */
    ghost predicate RoundTrips() {
      forall j: JsonValue, order: nat :: render(j, order).Some? ==>
        utf8(render(j, order).value) && parse(render(j, order).value) == Some(j)
    }

    /** The printer refuses exactly the trees that hold an infinity or a NaN. */
    ghost predicate PrintsFinite() {
      forall j: JsonValue, order: nat :: render(j, order).Some? <==> AllFinite(j)
    }
  }

  predicate AllFinite(j: JsonValue) {
    match j
    case JNumber(x) => x.Finite?
    case JArray(elements) => forall i | 0 <= i < |elements| :: AllFinite(elements[i])
    case JObject(members) => forall k | k in members :: AllFinite(members[k])
    case _ => true
  }

  predicate FiniteValue(v: KvsValue) {
    match v
    case F64(x) => x.Finite?
    case Array(items) => forall i | 0 <= i < |items| :: FiniteValue(items[i])
    case Object(fields) => forall k | k in fields :: FiniteValue(fields[k])
    case _ => true
  }

  lemma FiniteTagged(tag: string, payload: JsonValue)
    ensures AllFinite(Tagged(tag, payload)) <==> AllFinite(payload)
  {
    var members := Tagged(tag, payload).members;
    assert members.Keys == {"t", "v"} && members["t"] == JString(tag) && members["v"] == payload;
    assert AllFinite(members["t"]);
  }

  lemma {:induction false} FiniteEncoding(v: KvsValue)
    ensures AllFinite(Encode(v)) <==> FiniteValue(v)
  {
    FiniteTagged(TagOf(TypeOf(v)), Payload(v));
    match v
    case Array(items) =>
      forall i | 0 <= i < |items| { FiniteEncoding(items[i]); }
      FiniteItems(Payload(v).elements, items);
    case Object(fields) =>
      forall k | k in fields { FiniteEncoding(fields[k]); }
      FiniteFields(Payload(v).members, fields);
    case _ =>
  }

  lemma FiniteItems(elements: seq<JsonValue>, items: seq<KvsValue>)
    requires |elements| == |items|
    requires forall i | 0 <= i < |items| :: AllFinite(elements[i]) <==> FiniteValue(items[i])
    ensures AllFinite(JArray(elements)) <==> FiniteValue(Array(items))
  {
  }

  lemma FiniteFields(members: map<string, JsonValue>, fields: KvsMap)
    requires members.Keys == fields.Keys
    requires forall k | k in fields :: AllFinite(members[k]) <==> FiniteValue(fields[k])
    ensures AllFinite(JObject(members)) <==> FiniteValue(Object(fields))
  {
    assert AllFinite(JObject(members)) <==> forall k | k in members :: AllFinite(members[k]);
    assert FiniteValue(Object(fields)) <==> forall k | k in fields :: FiniteValue(fields[k]);
  }

  // ---------- Flat files

  /** A root object that maps each key straight to its tagged value, as the C++ store and
      hand-written default files have it. */
  function Flat(m: KvsMap): JsonValue {
    JObject(map k | k in m :: Encode(m[k]))
  }

  function Untagged(obj: map<string, JsonValue>): (r: KvsMap)
    ensures r.Keys == obj.Keys - {"t", "v"} && forall k | k in r :: r[k] == Decode(obj[k])
  {
    map k | k in obj && k != "t" && k != "v" :: Decode(obj[k])
  }

  lemma DecodeOfUntagged(obj: map<string, JsonValue>)
    requires "t" in obj ==> !obj["t"].JString?
    ensures Decode(JObject(obj)) == Object(Untagged(obj))
  {
  }

  /** The Rust reader loses the keys "t" and "v" of a flat file and nothing else. */
  lemma FlatLosesTagKeys(m: KvsMap)
    ensures Decode(Flat(m)) == Object(RoundedMap(m) - {"t", "v"})
  {
    var obj := Flat(m).members;
    DecodeOfUntagged(obj);
    forall k | k in m
      ensures Decode(Encode(m[k])) == Rounded(m[k])
    {
      RoundTrip(m[k]);
    }
    UntaggedReads(obj, m);
  }

  lemma UntaggedReads(obj: map<string, JsonValue>, m: KvsMap)
    requires obj.Keys == m.Keys && forall k | k in m :: Decode(obj[k]) == Rounded(m[k])
    ensures Untagged(obj) == RoundedMap(m) - {"t", "v"}
  {
    var r, goal := Untagged(obj), RoundedMap(m) - {"t", "v"};
    assert r.Keys == goal.Keys;
    forall k | k in goal ensures r[k] == goal[k] {
    }
  }

  /** It reads a flat and a wrapped file alike exactly when the map has neither key. */
  lemma FlatAndWrappedAgree(m: KvsMap)
    ensures Decode(Flat(m)) == Decode(Encode(Object(m))) <==> "t" !in m && "v" !in m
  {
    FlatLosesTagKeys(m);
    RoundTrip(Object(m));
    WithoutTagKeys(RoundedMap(m));
  }

  lemma WithoutTagKeys(m: KvsMap)
    ensures m - {"t", "v"} == m <==> "t" !in m && "v" !in m
  {
  }
}
