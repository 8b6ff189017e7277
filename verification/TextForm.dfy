/** The assumptions about the JSON library can be met: a text form that prints exactly the finite
    trees, and from which every printed tree can be read back. */
module TextForm {
  import opened Values
  import opened JsonCodec

  // ---------- The form: each `Put` puts the form of something in front of the rest of a text

  function Cons(b: byte, rest: Bytes): (r: Bytes)
    ensures |r| == |rest| + 1 && r[0] == b && r[1..] == rest
  {
    [b] + rest
  }

  /** Numbers in unary. */
  function PutNat(n: nat, rest: Bytes): Bytes {
    if n == 0 then Cons(0, rest) else Cons(1, PutNat(n - 1, rest))
  }

  function PutInt(n: int, rest: Bytes): Bytes {
    PutNat(if n < 0 then -2 * n - 1 else 2 * n, rest)
  }

  function PutString(s: string, rest: Bytes): Bytes
    decreases |s|
  {
    if s == "" then Cons(0, rest) else Cons(1, PutNat(s[0] as nat, PutString(s[1..], rest)))
  }

  ghost function Parts(r: Binary): (p: (int, nat))
    ensures Fraction(p.0, p.1) == r
  {
    assert IsBinary(r);
    var m: int, k: nat :| Fraction(m, k) == r;
    (m, k)
  }

  ghost function PutNumber(r: Binary, rest: Bytes): Bytes {
    PutInt(Parts(r).0, PutNat(Parts(r).1, rest))
  }

  ghost function Pick(keys: set<string>): (k: string)
    requires keys != {}
    ensures k in keys
  {
    var k :| k in keys;
    k
  }

  ghost function Put(j: JsonValue, rest: Bytes): Bytes
    requires AllFinite(j)
    decreases j
  {
    match j
    case JNumber(x) => Cons(0, PutNumber(x.r, rest))
    case JBoolean(b) => Cons(1, PutNat(if b then 1 else 0, rest))
    case JString(s) => Cons(2, PutString(s, rest))
    case JNull => Cons(3, rest)
    case JArray(_) => Cons(4, PutItems(j, 0, rest))
    case JObject(members) => Cons(5, PutMembers(j, members.Keys, rest))
  }

  /** The elements from index i on. */
  ghost function PutItems(j: JsonValue, i: nat, rest: Bytes): Bytes
    requires j.JArray? && AllFinite(j) && i <= |j.elements|
    decreases j, |j.elements| - i
  {
    if i == |j.elements| then Cons(0, rest) else Cons(1, Put(j.elements[i], PutItems(j, i + 1, rest)))
  }

  /** The members with these keys. */
  ghost function PutMembers(j: JsonValue, keys: set<string>, rest: Bytes): Bytes
    requires j.JObject? && AllFinite(j) && keys <= j.members.Keys
    decreases j, |keys|
  {
    if keys == {} then Cons(0, rest)
    else
      var k := Pick(keys);
      Cons(1, PutString(k, Put(j.members[k], PutMembers(j, keys - {k}, rest))))
  }

  // ---------- Equal texts have equal parts

  lemma {:induction false} NatOnce(n: nat, rest: Bytes, n': nat, rest': Bytes)
    requires PutNat(n, rest) == PutNat(n', rest')
    ensures n == n' && rest == rest'
  {
    if n > 0 && n' > 0 {
      NatOnce(n - 1, rest, n' - 1, rest');
    }
  }

  lemma {:induction false} StringOnce(s: string, rest: Bytes, s': string, rest': Bytes)
    requires PutString(s, rest) == PutString(s', rest')
    ensures s == s' && rest == rest'
    decreases |s|
  {
    if s != "" && s' != "" {
      NatOnce(s[0] as nat, PutString(s[1..], rest), s'[0] as nat, PutString(s'[1..], rest'));
      StringOnce(s[1..], rest, s'[1..], rest');
      assert s == [s[0]] + s[1..] && s' == [s'[0]] + s'[1..];
    }
  }

  lemma NumberOnce(r: Binary, rest: Bytes, r': Binary, rest': Bytes)
    requires PutNumber(r, rest) == PutNumber(r', rest')
    ensures r == r' && rest == rest'
  {
    var (m, k) := Parts(r);
    var (m', k') := Parts(r');
    NatOnce(if m < 0 then -2 * m - 1 else 2 * m, PutNat(k, rest),
            if m' < 0 then -2 * m' - 1 else 2 * m', PutNat(k', rest'));
    NatOnce(k, rest, k', rest');
  }

  lemma {:induction false} TreeOnce(j: JsonValue, rest: Bytes, j': JsonValue, rest': Bytes)
    requires AllFinite(j) && AllFinite(j') && Put(j, rest) == Put(j', rest')
    ensures j == j' && rest == rest'
    decreases j
  {
    assert Put(j, rest)[0] == Put(j', rest')[0] && Put(j, rest)[1..] == Put(j', rest')[1..];
    match j
    case JNumber(x) => NumberOnce(x.r, rest, j'.number.r, rest');
    case JBoolean(b) => NatOnce(if b then 1 else 0, rest, if j'.flag then 1 else 0, rest');
    case JString(s) => StringOnce(s, rest, j'.text, rest');
    case JNull =>
    case JArray(elements) =>
      ItemsOnce(j, 0, rest, j', 0, rest');
      assert elements == j'.elements;
    case JObject(members) =>
      MembersOnce(j, members.Keys, rest, j', j'.members.Keys, rest');
      assert members == j'.members;
  }

  lemma {:induction false} ItemsOnce(j: JsonValue, i: nat, rest: Bytes, j': JsonValue, i': nat, rest': Bytes)
    requires j.JArray? && AllFinite(j) && i <= |j.elements|
    requires j'.JArray? && AllFinite(j') && i' <= |j'.elements|
    requires PutItems(j, i, rest) == PutItems(j', i', rest')
    ensures j.elements[i..] == j'.elements[i'..] && rest == rest'
    decreases j, |j.elements| - i
  {
    if i < |j.elements| && i' < |j'.elements| {
      TreeOnce(j.elements[i], PutItems(j, i + 1, rest), j'.elements[i'], PutItems(j', i' + 1, rest'));
      ItemsOnce(j, i + 1, rest, j', i' + 1, rest');
      SliceFrom(j.elements, i);
      SliceFrom(j'.elements, i');
    }
  }

  lemma SliceFrom<T>(s: seq<T>, i: nat)
    requires i < |s|
    ensures s[i..] == [s[i]] + s[i + 1..]
  {
  }

  lemma {:induction false} MembersOnce(j: JsonValue, keys: set<string>, rest: Bytes,
                                       j': JsonValue, keys': set<string>, rest': Bytes)
    requires j.JObject? && AllFinite(j) && keys <= j.members.Keys
    requires j'.JObject? && AllFinite(j') && keys' <= j'.members.Keys
    requires PutMembers(j, keys, rest) == PutMembers(j', keys', rest')
    ensures keys == keys' && rest == rest'
    ensures forall k | k in keys :: j.members[k] == j'.members[k]
    decreases j, |keys|
  {
    if keys != {} && keys' != {} {
      var k, k' := Pick(keys), Pick(keys');
      var more, more' := PutMembers(j, keys - {k}, rest), PutMembers(j', keys' - {k'}, rest');
      StringOnce(k, Put(j.members[k], more), k', Put(j'.members[k'], more'));
      TreeOnce(j.members[k], more, j'.members[k'], more');
      MembersOnce(j, keys - {k}, rest, j', keys' - {k'}, rest');
      assert keys == keys - {k} + {k} && keys' == keys' - {k'} + {k'};
    }
  }

  // ---------- The library

  ghost function Print(j: JsonValue): Option<Bytes> {
    if AllFinite(j) then Some(Put(j, [])) else None
  }

  ghost function Parse(t: Bytes): Option<JsonValue> {
    if exists j :: Print(j) == Some(t) then
      var j :| Print(j) == Some(t);
      Some(j)
    else None
  }

  /** There is a library that meets both assumptions. */
  lemma AssumptionsCanBeMet() returns (text: TextCodec)
    ensures text.RoundTrips() && text.PrintsFinite()
  {
    text := TextCodec(_ => true, (j, _) => Print(j), t => Parse(t));
    forall j: JsonValue, order: nat | text.render(j, order).Some?
      ensures text.parse(text.render(j, order).value) == Some(j)
    {
      assert Print(j) == Some(Put(j, []));
      TreeOnce(Parse(Put(j, [])).value, [], j, []);
    }
  }
}
