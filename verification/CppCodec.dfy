/** The tagged JSON form as the C++ helpers convert it, and how the two implementations read
    each other's trees. */
module CppCodec {
  import opened Values
  import opened Binary64
  import opened JsonCodec

  // ---------- Typed access to a JSON tree

  /** `As<intN_t>` / `As<uintN_t>`: succeeds exactly on the integers of the range. */
  function AsInteger(j: JsonValue, lo: int, hi: int): (r: Option<int>)
    ensures r.Some? ==> lo <= r.value <= hi && j == JNumber(Finite(Whole(r.value)))
  {
    if j.JNumber? && j.number.Finite? && j.number.r.Floor as real == j.number.r
       && lo <= j.number.r.Floor <= hi
    then Some(j.number.r.Floor)
    else None
  }

  // ---------- What it means for a tree to carry a value

  /** The tree is tagged, at every level, as the given value: an object with the members "t" and
      "v", of which "t" names the value's type and "v" holds it. Other members do not matter. */
  predicate Carries(j: JsonValue, v: KvsValue)
    decreases v, 1
  {
    && j.JObject? && "t" in j.members && "v" in j.members
    && j.members["t"] == JString(TagOf(TypeOf(v)))
    && Holds(j.members["v"], v)
  }

  predicate Holds(p: JsonValue, v: KvsValue)
    decreases v, 0
  {
    match v
    case I32(n) => p == JNumber(Finite(Whole(n)))
    case U32(n) => p == JNumber(Finite(Whole(n)))
    case I64(n) => p == JNumber(Finite(Whole(n)))
    case U64(n) => p == JNumber(Finite(Whole(n)))
    case F64(x) => p == JNumber(x)
    case Boolean(b) => p == JBoolean(b)
    case String(s) => p == JString(s)
    case Null => p == JNull
    case Array(items) =>
      p.JArray? && |p.elements| == |items| && forall i | 0 <= i < |items| :: Carries(p.elements[i], items[i])
    case Object(fields) =>
      p.JObject? && p.members.Keys == fields.Keys && forall k | k in fields :: Carries(p.members[k], fields[k])
  }

  // ---------- kvsvalue_to_any

  function CppEncode(v: KvsValue): JsonValue
    decreases v, 1
  {
    Tagged(TagOf(TypeOf(v)), CppPayload(v))
  }

  function CppPayload(v: KvsValue): JsonValue
    decreases v, 0
  {
    match v
    case I32(n) => JNumber(Finite(Whole(n)))
    case U32(n) => JNumber(Finite(Whole(n)))
    case I64(n) => JNumber(Finite(Whole(n)))
    case U64(n) => JNumber(Finite(Whole(n)))
    case F64(x) => JNumber(x)
    case Boolean(b) => JBoolean(b)
    case String(s) => JString(s)
    case Null => JNull
    case Array(items) => JArray(seq(|items|, i requires 0 <= i < |items| => CppEncode(items[i])))
    case Object(fields) => JObject(map k | k in fields :: CppEncode(fields[k]))
  }

  /** The object that is written for a value: exactly the members "t" and "v", an integer being itself. */
  lemma CppWrittenForm(v: KvsValue)
    ensures CppEncode(v).JObject? && CppEncode(v).members.Keys == {"t", "v"}
    ensures var tag, p := CppEncode(v).members["t"], CppEncode(v).members["v"];
            match v
            case I32(n) => tag == JString("i32") && p == JNumber(Finite(Whole(n)))
            case U32(n) => tag == JString("u32") && p == JNumber(Finite(Whole(n)))
            case I64(n) => tag == JString("i64") && p == JNumber(Finite(Whole(n)))
            case U64(n) => tag == JString("u64") && p == JNumber(Finite(Whole(n)))
            case F64(x) => tag == JString("f64") && p == JNumber(x)
            case Boolean(b) => tag == JString("bool") && p == JBoolean(b)
            case String(s) => tag == JString("str") && p == JString(s)
            case Null => tag == JString("null") && p == JNull
            case Array(items) =>
              && tag == JString("arr") && p.JArray? && |p.elements| == |items|
              && forall i | 0 <= i < |items| :: p.elements[i] == CppEncode(items[i])
            case Object(fields) =>
              && tag == JString("obj") && p.JObject? && p.members.Keys == fields.Keys
              && forall k | k in fields :: p.members[k] == CppEncode(fields[k])
  {
  }

  lemma {:induction false} EncodingCarries(v: KvsValue)
    ensures Carries(CppEncode(v), v)
  {
    match v
    case Array(items) =>
      forall i | 0 <= i < |items| { EncodingCarries(items[i]); }
    case Object(fields) =>
      forall k | k in fields { EncodingCarries(fields[k]); }
    case _ =>
  }

  lemma EncodedItems(items: seq<KvsValue>, list: seq<JsonValue>)
    requires |list| == |items| && forall i | 0 <= i < |items| :: list[i] == CppEncode(items[i])
    ensures JArray(list) == CppPayload(Array(items))
  {
  }

  lemma EncodedFields(fields: KvsMap, inner: map<string, JsonValue>)
    requires inner.Keys == fields.Keys && forall k | k in fields :: inner[k] == CppEncode(fields[k])
    ensures JObject(inner) == CppPayload(Object(fields))
  {
  }

  /** The converter: loops that append converted children, never failing on a well-formed value. */
  method KvsValueToAny(kv: KvsValue) returns (result: Result<JsonValue>)
    ensures result == Ok(CppEncode(kv))
    decreases kv
  {
    var payload := JNull;
    match kv {
      case Array(items) =>
        var list: seq<JsonValue> := [];
        for i := 0 to |items|
          invariant |list| == i && forall j :: 0 <= j < i ==> list[j] == CppEncode(items[j])
        {
          var conv := KvsValueToAny(items[i]);
          if conv.Err? {
            return Err(InvalidValueType);
          }
          list := list + [conv.value];
        }
        payload := JArray(list);
        EncodedItems(items, list);
      case Object(fields) =>
        var inner: map<string, JsonValue> := map[];
        var rest := fields.Keys;
        while rest != {}
          invariant rest <= fields.Keys && inner.Keys == fields.Keys - rest
          invariant forall k | k in inner :: inner[k] == CppEncode(fields[k])
          decreases rest
        {
          var key :| key in rest;
          var conv := KvsValueToAny(fields[key]);
          if conv.Err? {
            return Err(InvalidValueType);
          }
          inner := inner[key := conv.value];
          rest := rest - {key};
        }
        payload := JObject(inner);
        EncodedFields(fields, inner);
      case I32(n) => payload := JNumber(Finite(Whole(n)));
      case U32(n) => payload := JNumber(Finite(Whole(n)));
      case I64(n) => payload := JNumber(Finite(Whole(n)));
      case U64(n) => payload := JNumber(Finite(Whole(n)));
      case F64(x) => payload := JNumber(x);
      case Boolean(b) => payload := JBoolean(b);
      case String(s) => payload := JString(s);
      case Null => payload := JNull;
    }
    result := Ok(Tagged(TagOf(TypeOf(kv)), payload));
  }

  // ---------- any_to_kvsvalue

  function CppDecode(j: JsonValue): Option<KvsValue>
    decreases j, 1
  {
    if j.JObject? && "t" in j.members && "v" in j.members && j.members["t"].JString? then
      match TypeOfTag(j.members["t"].text)
      case Some(t) => CppDecodeAs(t, j.members["v"])
      case None => None
    else None
  }

  function CppDecodeAs(t: Type, p: JsonValue): Option<KvsValue>
    decreases p, 0
  {
    match t
    case TI32 => (match AsInteger(p, I32_MIN, I32_MAX) case Some(n) => Some(I32(n)) case None => None)
    case TU32 => (match AsInteger(p, 0, U32_MAX) case Some(n) => Some(U32(n)) case None => None)
    case TI64 => (match AsInteger(p, I64_MIN, I64_MAX) case Some(n) => Some(I64(n)) case None => None)
    case TU64 => (match AsInteger(p, 0, U64_MAX) case Some(n) => Some(U64(n)) case None => None)
    case TF64 => if p.JNumber? then Some(F64(p.number)) else None
    case TBool => if p.JBoolean? then Some(Boolean(p.flag)) else None
    case TStr => if p.JString? then Some(String(p.text)) else None
    case TNull => if p.JNull? then Some(Null) else None
    case TArr =>
      if p.JArray? && forall i | 0 <= i < |p.elements| :: CppDecode(p.elements[i]).Some? then
        Some(Array(seq(|p.elements|, i requires 0 <= i < |p.elements| => CppDecode(p.elements[i]).value)))
      else None
    case TObj =>
      if p.JObject? && forall k | k in p.members :: CppDecode(p.members[k]).Some? then
        Some(Object(map k | k in p.members :: CppDecode(p.members[k]).value))
      else None
  }

  /** The branches of the converter for the types without children. */
  method LeafToKvsValue(t: Type, p: JsonValue) returns (result: Result<KvsValue>)
    requires !t.TArr? && !t.TObj?
    ensures result == match CppDecodeAs(t, p) case Some(v) => Ok(v) case None => Err(InvalidValueType)
  {
    match t
    case TI32 =>
      var n := AsInteger(p, I32_MIN, I32_MAX);
      result := if n.Some? then Ok(I32(n.value)) else Err(InvalidValueType);
    case TU32 =>
      var n := AsInteger(p, 0, U32_MAX);
      result := if n.Some? then Ok(U32(n.value)) else Err(InvalidValueType);
    case TI64 =>
      var n := AsInteger(p, I64_MIN, I64_MAX);
      result := if n.Some? then Ok(I64(n.value)) else Err(InvalidValueType);
    case TU64 =>
      var n := AsInteger(p, 0, U64_MAX);
      result := if n.Some? then Ok(U64(n.value)) else Err(InvalidValueType);
    case TF64 =>
      result := if p.JNumber? then Ok(F64(p.number)) else Err(InvalidValueType);
    case TBool =>
      result := if p.JBoolean? then Ok(Boolean(p.flag)) else Err(InvalidValueType);
    case TStr =>
      result := if p.JString? then Ok(String(p.text)) else Err(InvalidValueType);
    case TNull =>
      result := if p.JNull? then Ok(Null) else Err(InvalidValueType);
  }

  /** The converter, with its early exits on a child that does not convert. */
  method AnyToKvsValue(any: JsonValue) returns (result: Result<KvsValue>)
    ensures result == match CppDecode(any) case Some(v) => Ok(v) case None => Err(InvalidValueType)
    decreases any
  {
    if !any.JObject? || "t" !in any.members || "v" !in any.members || !any.members["t"].JString? {
      return Err(InvalidValueType);
    }
    var tag := TypeOfTag(any.members["t"].text);
    if tag.None? {
      return Err(InvalidValueType);
    }
    var p := any.members["v"];
    match tag.value {
      case TArr =>
        if !p.JArray? {
          return Err(InvalidValueType);
        }
        var arr: seq<KvsValue> := [];
        for i := 0 to |p.elements|
          invariant |arr| == i && forall j :: 0 <= j < i ==> CppDecode(p.elements[j]) == Some(arr[j])
        {
          var conv := AnyToKvsValue(p.elements[i]);
          if conv.Err? {
            return Err(InvalidValueType);
          }
          arr := arr + [conv.value];
        }
        ArrayDecoded(p.elements, arr);
        result := Ok(Array(arr));
      case TObj =>
        if !p.JObject? {
          return Err(InvalidValueType);
        }
        var fields: KvsMap := map[];
        var rest := p.members.Keys;
        while rest != {}
          invariant rest <= p.members.Keys && fields.Keys == p.members.Keys - rest
          invariant forall k | k in fields :: CppDecode(p.members[k]) == Some(fields[k])
          decreases rest
        {
          var key :| key in rest;
          var conv := AnyToKvsValue(p.members[key]);
          if conv.Err? {
            return Err(InvalidValueType);
          }
          fields := fields[key := conv.value];
          rest := rest - {key};
        }
        ObjectDecoded(p.members, fields);
        result := Ok(Object(fields));
      case t =>
        result := LeafToKvsValue(t, p);
    }
  }

  /** Decoding succeeds exactly on the trees that carry a value, and gives that value. */
  lemma {:induction false} DecodesWhatIsCarried(j: JsonValue, v: KvsValue)
    ensures CppDecode(j) == Some(v) <==> Carries(j, v)
    decreases j
  {
    TagsAreDistinct(TypeOf(v));
    if j.JObject? && "t" in j.members && "v" in j.members && j.members["t"] == JString(TagOf(TypeOf(v))) {
      HoldsWhatIsDecoded(j.members["v"], v);
    } else if CppDecode(j).Some? {
      DecodedType(TypeOfTag(j.members["t"].text).value, j.members["v"]);
    }
  }

  lemma DecodedType(t: Type, p: JsonValue)
    ensures CppDecodeAs(t, p).Some? ==> TypeOf(CppDecodeAs(t, p).value) == t
  {
  }

  lemma {:induction false} HoldsWhatIsDecoded(p: JsonValue, v: KvsValue)
    ensures CppDecodeAs(TypeOf(v), p) == Some(v) <==> Holds(p, v)
    decreases p
  {
    match v
    case Array(items) =>
      if p.JArray? && |p.elements| == |items| {
        forall i | 0 <= i < |items| { DecodesWhatIsCarried(p.elements[i], items[i]); }
        ArrayDecoded(p.elements, items);
      }
    case Object(fields) =>
      if p.JObject? && p.members.Keys == fields.Keys {
        forall k | k in fields { DecodesWhatIsCarried(p.members[k], fields[k]); }
        ObjectDecoded(p.members, fields);
      }
    case _ =>
      LeafDecoded(p, v);
  }

  lemma LeafDecoded(p: JsonValue, v: KvsValue)
    requires !v.Array? && !v.Object?
    ensures CppDecodeAs(TypeOf(v), p) == Some(v) <==> Holds(p, v)
  {
  }

  lemma DecodedElements(elements: seq<JsonValue>)
    requires forall i | 0 <= i < |elements| :: CppDecode(elements[i]).Some?
    ensures var r := CppDecodeAs(TArr, JArray(elements));
            && r.Some? && r.value.Array? && |r.value.items| == |elements|
            && forall i | 0 <= i < |elements| :: CppDecode(elements[i]) == Some(r.value.items[i])
  {
  }

  lemma ArrayDecoded(elements: seq<JsonValue>, items: seq<KvsValue>)
    requires |elements| == |items|
    ensures CppDecodeAs(TArr, JArray(elements)) == Some(Array(items))
            <==> forall i | 0 <= i < |items| :: CppDecode(elements[i]) == Some(items[i])
  {
    if forall i | 0 <= i < |elements| :: CppDecode(elements[i]).Some? {
      DecodedElements(elements);
      assert CppDecodeAs(TArr, JArray(elements)).value.items == items
        <==> forall i | 0 <= i < |items| :: CppDecodeAs(TArr, JArray(elements)).value.items[i] == items[i];
    }
  }

  lemma DecodedMembers(members: map<string, JsonValue>)
    requires forall k | k in members :: CppDecode(members[k]).Some?
    ensures var r := CppDecodeAs(TObj, JObject(members));
            && r.Some? && r.value.Object? && r.value.fields.Keys == members.Keys
            && forall k | k in members :: CppDecode(members[k]) == Some(r.value.fields[k])
  {
  }

  lemma SameFields(a: KvsMap, b: KvsMap)
    requires a.Keys == b.Keys
    ensures a == b <==> forall k | k in b :: a[k] == b[k]
  {
  }

  lemma ObjectDecoded(members: map<string, JsonValue>, fields: KvsMap)
    requires members.Keys == fields.Keys
    ensures CppDecodeAs(TObj, JObject(members)) == Some(Object(fields))
            <==> forall k | k in fields :: CppDecode(members[k]) == Some(fields[k])
  {
    if forall k | k in members :: CppDecode(members[k]).Some? {
      DecodedMembers(members);
      SameFields(CppDecodeAs(TObj, JObject(members)).value.fields, fields);
    }
  }

  /** Decoding what the encoder produced gives the value back, 64-bit integers included. */
  lemma CppRoundTrip(v: KvsValue)
    ensures CppDecode(CppEncode(v)) == Some(v)
  {
    EncodingCarries(v);
    DecodesWhatIsCarried(CppEncode(v), v);
  }

  // ---------- One tree, two readers

  /** The number as the Rust JSON library holds it: an integer as the nearest binary64 number.
      A number that is no integer came from a double and stays. */
  function NearestDouble(x: Number): Number {
    if x.Finite? && x.r.Floor as real == x.r then FromInt(x.r.Floor) else x
  }

  /** The same tree as the Rust JSON library holds it. */
  function InBinary64(j: JsonValue): JsonValue {
    match j
    case JNumber(x) => JNumber(NearestDouble(x))
    case JArray(elements) => JArray(seq(|elements|, i requires 0 <= i < |elements| => InBinary64(elements[i])))
    case JObject(members) => JObject(map k | k in members :: InBinary64(members[k]))
    case _ => j
  }

  /** Every floating-point value of the tree is a binary64 number, as a C++ double always is. */
  predicate DoublesOnly(v: KvsValue) {
    match v
    case F64(x) => NearestDouble(x) == x
    case Array(items) => forall i | 0 <= i < |items| :: DoublesOnly(items[i])
    case Object(fields) => forall k | k in fields :: DoublesOnly(fields[k])
    case _ => true
  }

  /** On every tree the C++ decoder accepts, the Rust decoder yields the same value up to the
      rounding of its 64-bit integers. */
  lemma ReadersAgree(j: JsonValue, v: KvsValue)
    requires CppDecode(j) == Some(v) && DoublesOnly(v)
    ensures Decode(InBinary64(j)) == Rounded(v)
    ensures IntegersSmall(v) ==> Decode(InBinary64(j)) == v
  {
    DecodesWhatIsCarried(j, v);
    RustReadsWhatIsCarried(j, v);
    UnroundedIffSurvives(v);
    if IntegersSmall(v) { SmallIntegersSurvive(v); }
  }

  lemma {:induction false} RustReadsWhatIsCarried(j: JsonValue, v: KvsValue)
    requires Carries(j, v) && DoublesOnly(v)
    ensures Decode(InBinary64(j)) == Rounded(v)
    decreases v
  {
    var p := j.members["v"];
    match v {
      case Array(items) =>
        forall i | 0 <= i < |items| { RustReadsWhatIsCarried(p.elements[i], items[i]); }
        ArrayReadAlike(p.elements, items);
      case Object(fields) =>
        forall k | k in fields { RustReadsWhatIsCarried(p.members[k], fields[k]); }
        ObjectReadAlike(p.members, fields);
      case _ =>
        LeafReadAlike(p, v);
    }
    TagInBinary64(j, TypeOf(v));
  }

  lemma TagInBinary64(j: JsonValue, t: Type)
    requires j.JObject? && "t" in j.members && "v" in j.members && j.members["t"] == JString(TagOf(t))
    ensures Decode(InBinary64(j)) == DecodeAs(t, InBinary64(j.members["v"]))
  {
    TagsAreDistinct(t);
  }

  lemma ArrayReadAlike(elements: seq<JsonValue>, items: seq<KvsValue>)
    requires |elements| == |items|
    requires forall i | 0 <= i < |items| :: Decode(InBinary64(elements[i])) == Rounded(items[i])
    ensures DecodeAs(TArr, InBinary64(JArray(elements))) == Rounded(Array(items))
  {
  }

  lemma ObjectReadAlike(members: map<string, JsonValue>, fields: KvsMap)
    requires members.Keys == fields.Keys
    requires forall k | k in fields :: Decode(InBinary64(members[k])) == Rounded(fields[k])
    ensures DecodeAs(TObj, InBinary64(JObject(members))) == Rounded(Object(fields))
  {
    FieldsReadAlike(InBinary64(JObject(members)).members, fields);
  }

  lemma FieldsReadAlike(inner: map<string, JsonValue>, fields: KvsMap)
    requires inner.Keys == fields.Keys
    requires forall k | k in fields :: Decode(inner[k]) == Rounded(fields[k])
    ensures DecodeAs(TObj, JObject(inner)) == Rounded(Object(fields))
  {
    var r, goal := DecodeAs(TObj, JObject(inner)).fields, Rounded(Object(fields)).fields;
    assert r.Keys == goal.Keys;
    forall k | k in goal ensures r[k] == goal[k] {
    }
  }

  lemma LeafReadAlike(p: JsonValue, v: KvsValue)
    requires !v.Array? && !v.Object? && Holds(p, v) && DoublesOnly(v)
    ensures DecodeAs(TypeOf(v), InBinary64(p)) == Rounded(v)
  {
  }

  // ---------- Whole files

  /** The root object that `flush` builds: each key straight to its tagged value. */
  function CppRoot(m: KvsMap): JsonValue {
    JObject(map k | k in m :: CppEncode(m[k]))
  }

  /** `parse_json_data` after the text is parsed. */
  function CppParseRoot(root: JsonValue): Result<KvsMap> {
    if !root.JObject? then Err(JsonParserError)
    else if forall k | k in root.members :: CppDecode(root.members[k]).Some? then
      Ok(map k | k in root.members :: CppDecode(root.members[k]).value)
    else Err(InvalidValueType)
  }

  /** The tree is not tagged as any value. */
  ghost predicate CarriesNothing(j: JsonValue) {
    forall v :: !Carries(j, v)
  }

  lemma DecodesWhatCarriesSomething(j: JsonValue)
    ensures CppDecode(j).None? <==> CarriesNothing(j)
  {
    if CppDecode(j).Some? {
      DecodesWhatIsCarried(j, CppDecode(j).value);
    }
    forall v ensures CppDecode(j) == Some(v) <==> Carries(j, v) {
      DecodesWhatIsCarried(j, v);
    }
  }

  lemma RootDecodes(members: map<string, JsonValue>)
    requires forall k | k in members :: CppDecode(members[k]).Some?
    ensures var r := CppParseRoot(JObject(members));
            r.Ok? && r.value.Keys == members.Keys
            && forall k | k in members :: CppDecode(members[k]) == Some(r.value[k])
  {
  }

  /** A root is read as a map exactly when its members carry that map. */
  lemma RootCarries(members: map<string, JsonValue>, m: KvsMap)
    ensures CppParseRoot(JObject(members)) == Ok(m) <==>
              m.Keys == members.Keys && forall k | k in members :: Carries(members[k], m[k])
  {
    var r := CppParseRoot(JObject(members));
    if k :| k in members && CppDecode(members[k]).None? {
      if m.Keys == members.Keys {
        DecodesWhatIsCarried(members[k], m[k]);
      }
    } else {
      RootDecodes(members);
      if m.Keys == members.Keys {
        RootCarriesWhatItDecodes(members, r.value, m);
      }
    }
  }

  lemma RootCarriesWhatItDecodes(members: map<string, JsonValue>, r: KvsMap, m: KvsMap)
    requires r.Keys == m.Keys == members.Keys
    requires forall k | k in members :: CppDecode(members[k]) == Some(r[k])
    ensures r == m <==> forall k | k in members :: Carries(members[k], m[k])
  {
    forall k | k in members ensures r[k] == m[k] <==> Carries(members[k], m[k]) {
      DecodesWhatIsCarried(members[k], m[k]);
    }
    SameFields(r, m);
  }

  /** And it is refused exactly when some member carries no value. */
  lemma RootRefused(members: map<string, JsonValue>)
    ensures var r := CppParseRoot(JObject(members));
            && (r.Err? <==> exists k :: k in members && CarriesNothing(members[k]))
            && (r.Err? ==> r == Err(InvalidValueType))
  {
    forall k | k in members ensures CppDecode(members[k]).None? <==> CarriesNothing(members[k]) {
      DecodesWhatCarriesSomething(members[k]);
    }
  }

  /** The C++ store reads back the map it wrote, whatever its keys. */
  lemma CppFileRoundTrip(m: KvsMap)
    ensures CppParseRoot(CppRoot(m)) == Ok(m)
  {
    var root := CppRoot(m);
    forall k | k in m
      ensures CppDecode(root.members[k]) == Some(m[k])
    {
      CppRoundTrip(m[k]);
    }
    assert CppParseRoot(root).value == m;
  }

  /** The C++ store rejects every file that the Rust store writes: the wrapping object's tag is no
      tagged value. */
  lemma CppRejectsRustFiles(m: KvsMap)
    ensures CppParseRoot(InBinary64(Encode(Object(m)))) == Err(InvalidValueType)
    ensures CppParseRoot(Encode(Object(m))) == Err(InvalidValueType)
  {
    assert Encode(Object(m)).members["t"] == JString("obj");
    assert InBinary64(Encode(Object(m))).members["t"] == JString("obj");
  }

  /** The Rust store reads a file of the C++ store without the keys "t" and "v". */
  lemma RustReadsCppFiles(m: KvsMap)
    requires DoublesOnly(Object(m))
    ensures Decode(InBinary64(CppRoot(m))) == Object(RoundedMap(m) - {"t", "v"})
  {
    var root := InBinary64(CppRoot(m)).members;
    MembersInBinary64(m);
    forall k | k in m
      ensures root[k].JObject? && Decode(root[k]) == Rounded(m[k])
    {
      EncodedReadAlike(m[k]);
    }
    DecodeOfUntagged(root);
    UntaggedReads(root, m);
  }

  lemma MembersInBinary64(m: KvsMap)
    ensures var j := InBinary64(CppRoot(m));
            j.JObject? && j.members.Keys == m.Keys && forall k | k in m :: j.members[k] == InBinary64(CppEncode(m[k]))
  {
  }

  lemma EncodedReadAlike(v: KvsValue)
    requires DoublesOnly(v)
    ensures InBinary64(CppEncode(v)).JObject? && Decode(InBinary64(CppEncode(v))) == Rounded(v)
  {
    CppRoundTrip(v);
    ReadersAgree(CppEncode(v), v);
  }
}
