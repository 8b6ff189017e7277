/** The Adler-32 checksum that guards every snapshot file: its definition (section 2.2 of
    RFC 1950), the blocked computation of the C++ helper in 32-bit arithmetic, what changes
    the checksum is sure to detect, and its four-byte form on disk. */
module Adler32 {
  import opened Values

  const BASE: nat := 65521
  const NMAX: nat := 5552
  const WORD: nat := 0x1_0000_0000

  newtype uint32 = x: int | 0 <= x < 0x1_0000_0000

  // ---------- Definition of RFC 1950: both sums are reduced after every byte

  function S1(data: Bytes): (r: nat)
    ensures r < BASE
  {
    if data == [] then 1 else (S1(data[..|data| - 1]) + data[|data| - 1] as nat) % BASE
  }

  function S2(data: Bytes): (r: nat)
    ensures r < BASE
  {
    if data == [] then 0 else (S2(data[..|data| - 1]) + S1(data)) % BASE
  }

  function Checksum(data: Bytes): (r: nat)
    ensures r < WORD
    ensures r % 0x1_0000 == S1(data) && r / 0x1_0000 == S2(data)
  {
    S2(data) * 0x1_0000 + S1(data)
  }

  // ---------- The two running sums without any reduction

  function SumA(a: nat, block: Bytes): nat {
    if block == [] then a else SumA(a, block[..|block| - 1]) + block[|block| - 1] as nat
  }

  function SumB(a: nat, b: nat, block: Bytes): nat {
    if block == [] then b else SumB(a, b, block[..|block| - 1]) + SumA(a, block)
  }

  lemma AppendToReduced(data: Bytes, x: byte)
    ensures S1(data + [x]) == (S1(data) + x as nat) % BASE
    ensures S2(data + [x]) == (S2(data) + S1(data + [x])) % BASE
  {
    assert (data + [x])[..|data|] == data;
  }

  lemma AppendToSums(a: nat, b: nat, data: Bytes, x: byte)
    ensures SumA(a, data + [x]) == SumA(a, data) + x as nat
    ensures SumB(a, b, data + [x]) == SumB(a, b, data) + SumA(a, data + [x])
  {
    assert (data + [x])[..|data|] == data;
  }

  /** The unreduced sums over a block agree with the reduced sums over everything so far. */
  predicate Congruent(all: Bytes, block: Bytes, a: nat, b: nat) {
    SumA(a, block) % BASE == S1(all) && SumB(a, b, block) % BASE == S2(all)
  }

  lemma CongruentByOneMore(all: Bytes, block: Bytes, x: byte, a: nat, b: nat)
    requires Congruent(all, block, a, b)
    ensures Congruent(all + [x], block + [x], a, b)
  {
    AppendToSums(a, b, block, x);
    AppendToReduced(all, x);
    ReduceStep(SumA(a, block), SumB(a, b, block), x as nat, S1(all), S2(all),
               SumA(a, block + [x]), SumB(a, b, block + [x]), S1(all + [x]), S2(all + [x]));
  }

  /** Reducing once at the end of a block is the same as reducing after every byte. */
  lemma {:induction false} ReduceLate(before: Bytes, block: Bytes)
    ensures Congruent(before + block, block, S1(before), S2(before))
  {
    if block == [] {
      assert before + block == before;
    } else {
      var init, x := block[..|block| - 1], block[|block| - 1];
      ReduceLate(before, init);
      CongruentByOneMore(before + init, init, x, S1(before), S2(before));
      assert init + [x] == block && before + init + [x] == before + block;
    }
  }

  lemma ReduceStep(a: nat, b: nat, x: nat, ra: nat, rb: nat, a': nat, b': nat, ra': nat, rb': nat)
    requires a % BASE == ra && b % BASE == rb
    requires a' == a + x && b' == b + a'
    requires ra' == (ra + x) % BASE && rb' == (rb + ra') % BASE
    ensures a' % BASE == ra' && b' % BASE == rb'
  {
    SameResidueAfterSum(a, ra, x, x);
    SameResidueAfterSum(b, rb, a', ra');
  }

  lemma SameResidueAfterSum(x: nat, x': nat, y: nat, y': nat)
    requires x % BASE == x' % BASE && y % BASE == y' % BASE
    ensures (x + y) % BASE == (x' + y') % BASE
  {
    var k := x / BASE + y / BASE - x' / BASE - y' / BASE;
    assert x + y == x' + y' + k * BASE;
    ResidueOfShifted(x + y, x' + y', k);
  }

  lemma ResidueOfShifted(x: nat, y: nat, k: int)
    requires x == y + k * BASE
    ensures x % BASE == y % BASE
  {
    var d := x / BASE - y / BASE - k;
    assert x % BASE - y % BASE == -d * BASE;
  }

  lemma {:induction false} SumBounds(a: nat, b: nat, block: Bytes)
    requires a < BASE && b < BASE
    ensures SumA(a, block) <= 65520 + 255 * |block|
    ensures 2 * SumB(a, b, block) <= 131040 * (|block| + 1) + 255 * (|block| * (|block| + 1))
  {
    if block != [] {
      var n := |block|;
      SumBounds(a, b, block[..n - 1]);
      assert n * (n + 1) == (n - 1) * n + 2 * n;
    }
  }

  /** No 32-bit word can overflow while this block is summed, at any point of the inner loop. */
  ghost predicate FitsWord(a: nat, b: nat, block: Bytes) {
    forall j :: 0 <= j <= |block| ==> SumA(a, block[..j]) < WORD && SumB(a, b, block[..j]) < WORD
  }

  lemma ShortBlockFits(a: nat, b: nat, block: Bytes)
    requires a < BASE && b < BASE && |block| <= NMAX
    ensures FitsWord(a, b, block)
  {
    forall j | 0 <= j <= |block|
      ensures SumA(a, block[..j]) < WORD && SumB(a, b, block[..j]) < WORD
    {
      SumBounds(a, b, block[..j]);
      OblongMonotone(j, NMAX);
    }
  }

  lemma OblongMonotone(n: nat, m: nat)
    requires n <= m
    ensures n * (n + 1) <= m * (m + 1)
  {
    assert m * (m + 1) == n * (n + 1) + (m - n) * (m + n + 1);
  }

  function Repeat(x: byte, n: nat): (r: Bytes)
    ensures |r| == n
  {
    seq(n, _ => x)
  }

  lemma {:induction false} WorstBlock(n: nat)
    ensures SumA(65520, Repeat(255, n)) == 65520 + 255 * n
    ensures 2 * SumB(65520, 65520, Repeat(255, n)) == 131040 * (n + 1) + 255 * (n * (n + 1))
  {
    if n > 0 {
      WorstBlock(n - 1);
      assert Repeat(255, n)[..n - 1] == Repeat(255, n - 1);
      assert n * (n + 1) == (n - 1) * n + 2 * n;
    }
  }

  /** The block length 5552 is safe for every block and every reduced start, and no longer
      length is. */
  lemma BlockLengthIsTight(n: nat)
    ensures n <= NMAX <==>
            forall a: nat, b: nat, block: Bytes | a < BASE && b < BASE && |block| == n :: FitsWord(a, b, block)
  {
    if n <= NMAX {
      forall a: nat, b: nat, block: Bytes | a < BASE && b < BASE && |block| == n
        ensures FitsWord(a, b, block)
      {
        ShortBlockFits(a, b, block);
      }
    } else {
      WorstBlockOverflows(n);
    }
  }

  lemma WorstBlockOverflows(n: nat)
    requires n > NMAX
    ensures !FitsWord(65520, 65520, Repeat(255, n))
  {
    var block := Repeat(255, n);
    WorstBlock(n);
    OblongMonotone(NMAX + 1, n);
    assert block[..n] == block;
  }

  /** The C++ computation: modulo deferred to the end of each block of at most NMAX bytes, all
      arithmetic in 32-bit words. Dafny checks at each addition that the word does not wrap. */
  method CalculateHashAdler32(data: Bytes) returns (hash: uint32)
    ensures hash as nat == Checksum(data)
  {
    var a: uint32, b: uint32 := 1, 0;
    var len: nat, i: nat := |data|, 0;
    while len > 0
      invariant i + len == |data|
      invariant a as nat == S1(data[..i]) && b as nat == S2(data[..i])
    {
      var tlen := if len > NMAX then NMAX else len;
      len := len - tlen;
      ghost var start, a0, b0 := i, a as nat, b as nat;
      ghost var block := data[start..start + tlen];
      ShortBlockFits(a0, b0, block);
      var j := 0;
      while j < tlen
        invariant 0 <= j <= tlen && i == start + j
        invariant a as nat == SumA(a0, block[..j]) && b as nat == SumB(a0, b0, block[..j])
      {
        assert block[..j + 1][..j] == block[..j] && block[..j + 1][j] == data[i];
        assert SumA(a0, block[..j + 1]) < WORD && SumB(a0, b0, block[..j + 1]) < WORD;
        a := a + data[i] as uint32;
        b := b + a;
        j, i := j + 1, i + 1;
      }
      assert block[..tlen] == block && data[..i] == data[..start] + block;
      ReduceLate(data[..start], block);
      a := a % 65521;
      b := b % 65521;
    }
    assert data[..i] == data;
    hash := b * 0x1_0000 + a;
  }

  /** Multiplying by 2^16 and adding is shifting and or-ing when both halves fit 16 bits. */
  lemma PackingBits(a: bv32, b: bv32)
    requires a < 0x1_0000 && b < 0x1_0000
    ensures (b << 16) | a == b * 0x1_0000 + a
  {
  }

  // ---------- Closed form

  function Total(data: Bytes): nat {
    if data == [] then 0 else data[0] as nat + Total(data[1..])
  }

  /** Each byte counted as often as there are bytes from it to the end. */
  function Weighted(data: Bytes): nat {
    if data == [] then 0 else |data| * data[0] as nat + Weighted(data[1..])
  }

  lemma {:induction false} WeightedOneMore(data: Bytes, x: byte)
    ensures Total(data + [x]) == Total(data) + x as nat
    ensures Weighted(data + [x]) == Weighted(data) + Total(data) + x as nat
  {
    if data == [] {
      assert data + [x] == [x];
    } else {
      var longer := data + [x];
      assert longer[1..] == data[1..] + [x] && longer[0] == data[0];
      WeightedOneMore(data[1..], x);
      OnceMore(|data|, data[0] as nat);
      assert Weighted(longer) == (|data| + 1) * data[0] as nat + Weighted(data[1..] + [x]);
    }
  }

  lemma OnceMore(n: nat, x: nat)
    ensures (n + 1) * x == n * x + x
  {
  }

  lemma {:induction false} SumsAreWeighted(data: Bytes)
    ensures SumA(1, data) == 1 + Total(data)
    ensures SumB(1, 0, data) == |data| + Weighted(data)
  {
    if data != [] {
      var init, x := data[..|data| - 1], data[|data| - 1];
      SumsAreWeighted(init);
      WeightedOneMore(init, x);
      assert init + [x] == data;
    }
  }

  /** The checksum as two sums over the whole string, without any running state. */
  lemma ClosedForm(data: Bytes)
    ensures Checksum(data) == (|data| + Weighted(data)) % 65521 * 0x1_0000 + (1 + Total(data)) % 65521
  {
    ChecksumFromSums(data);
    SumsAreWeighted(data);
  }

  // ---------- Detection

  lemma {:induction false} SumsSplit(a: nat, b: nat, x: Bytes, y: Bytes)
    ensures SumA(a, x + y) == SumA(SumA(a, x), y)
    ensures SumB(a, b, x + y) == SumB(SumA(a, x), SumB(a, b, x), y)
  {
    if y == [] {
      assert x + y == x;
    } else {
      var init := y[..|y| - 1];
      assert (x + y)[..|x + y| - 1] == x + init;
      SumsSplit(a, b, x, init);
    }
  }

  lemma {:induction false} SumsShift(a: nat, b: nat, a': nat, b': nat, y: Bytes, delta: int)
    requires a' - a == delta
    ensures SumA(a', y) as int - SumA(a, y) == delta
    ensures SumB(a', b', y) as int - SumB(a, b, y) == b' - b + delta * |y|
  {
    if y != [] {
      SumsShift(a, b, a', b', y[..|y| - 1], delta);
      assert delta * |y| == delta * (|y| - 1) + delta;
    }
  }

  lemma ChecksumFromSums(data: Bytes)
    ensures S1(data) == SumA(1, data) % BASE && S2(data) == SumB(1, 0, data) % BASE
  {
    ReduceLate([], data);
    assert [] + data == data;
  }

  lemma SameChecksum(x: Bytes, y: Bytes)
    ensures Checksum(x) == Checksum(y) <==> S1(x) == S1(y) && S2(x) == S2(y)
  {
  }

  /** How far apart the unreduced sums of two strings are. */
  predicate Apart(d: Bytes, d': Bytes, alpha: int, beta: int) {
    SumA(1, d') as int - SumA(1, d) == alpha && SumB(1, 0, d') as int - SumB(1, 0, d) == beta
  }

  lemma ApartByOneMore(d: Bytes, d': Bytes, x: byte, x': byte, alpha: int, beta: int)
    requires Apart(d, d', alpha, beta)
    ensures var alpha' := alpha + x' as int - x as int; Apart(d + [x], d' + [x'], alpha', beta + alpha')
  {
  }

  /** Appending the same bytes keeps the difference of the first sum and adds it to the
      difference of the second once per byte. */
  lemma ApartByTail(d: Bytes, d': Bytes, y: Bytes, alpha: int, beta: int)
    requires Apart(d, d', alpha, beta)
    ensures Apart(d + y, d' + y, alpha, beta + alpha * |y|)
  {
    SumsSplit(1, 0, d, y);
    SumsSplit(1, 0, d', y);
    SumsShift(SumA(1, d), SumB(1, 0, d), SumA(1, d'), SumB(1, 0, d'), y, alpha);
  }

  /** Replacing one byte by a different one always changes the checksum. */
  lemma ByteChangeDetected(prefix: Bytes, x: byte, y: byte, suffix: Bytes)
    requires x != y
    ensures Checksum(prefix + [x] + suffix) != Checksum(prefix + [y] + suffix)
  {
    var d, d' := prefix + [x] + suffix, prefix + [y] + suffix;
    var delta := y as int - x as int;
    ApartByOneMore(prefix, prefix, x, y, 0, 0);
    ApartByTail(prefix + [x], prefix + [y], suffix, delta, delta);
    ChecksumFromSums(d);
    ChecksumFromSums(d');
    SameChecksum(d, d');
    NearbyResidues(SumA(1, d), SumA(1, d'));
  }

  lemma NearbyResidues(s: nat, s': nat)
    requires s != s' && -256 < s' as int - s < 256
    ensures s % BASE != s' % BASE
  {
  }

  /** Exchanging two unequal bytes goes undetected exactly when their distance is a multiple
      of 65521. */
  lemma SwapDetected(prefix: Bytes, x: byte, middle: Bytes, y: byte, suffix: Bytes)
    requires x != y
    ensures Checksum(prefix + [x] + middle + [y] + suffix) == Checksum(prefix + [y] + middle + [x] + suffix)
            <==> (|middle| + 1) % BASE == 0
  {
    var d, d' := prefix + [x] + middle + [y] + suffix, prefix + [y] + middle + [x] + suffix;
    var delta, dist := y as int - x as int, |middle| + 1;
    SwapIsApart(prefix, x, middle, y, suffix);
    ChecksumFromSums(d);
    ChecksumFromSums(d');
    SameChecksum(d, d');
    var sum, sum' := SumB(1, 0, d) as int, SumB(1, 0, d') as int;
    CongruentWhenDivides(sum, sum', delta * dist);
    DividesProduct(delta, dist);
  }

  lemma SwapIsApart(prefix: Bytes, x: byte, middle: Bytes, y: byte, suffix: Bytes)
    ensures Apart(prefix + [x] + middle + [y] + suffix, prefix + [y] + middle + [x] + suffix,
                  0, (y as int - x as int) * (|middle| + 1))
  {
    var delta := y as int - x as int;
    var p, q := prefix + [x], prefix + [y];
    ApartByOneMore(prefix, prefix, x, y, 0, 0);
    ApartByTail(p, q, middle, delta, delta);
    ApartByOneMore(p + middle, q + middle, y, x, delta, delta + delta * |middle|);
    ApartByTail(p + middle + [y], q + middle + [x], suffix, 0, delta + delta * |middle|);
    assert delta * (|middle| + 1) == delta + delta * |middle|;
  }

  lemma CongruentWhenDivides(s: int, s': int, step: int)
    requires s >= 0 && s' >= 0 && s' - s == step
    ensures s % BASE == s' % BASE <==> step % BASE == 0
  {
  }

  /** BASE has no divisor below 256 other than 1. */
  lemma NoSmallDivisor()
    ensures forall n | 2 <= n < 256 :: 65521 % n != 0
  {
  }

  lemma DividesProduct(delta: int, dist: nat)
    requires -256 < delta < 256 && delta != 0
    ensures delta * dist % BASE == 0 <==> dist % BASE == 0
  {
    if delta * dist % BASE == 0 {
      if delta < 0 {
        assert (-delta) * dist == -(delta * dist);
        NegatedMultiple(delta * dist);
        EuclidDown(-delta, dist);
      } else {
        EuclidDown(delta, dist);
      }
    }
    if dist % BASE == 0 {
      var q := dist / BASE;
      assert delta * dist == delta * (q * BASE) == (delta * q) * BASE;
      MultipleOfBase(delta * dist, delta * q);
    }
  }

  lemma NegatedMultiple(x: int)
    requires x % BASE == 0
    ensures -x % BASE == 0
  {
  }

  /** Euclid's lemma for 65521 and a factor below 256, by descent along remainders. */
  lemma {:induction false} EuclidDown(n: nat, dist: nat)
    requires 1 <= n < 256 && n * dist % BASE == 0
    ensures dist % BASE == 0
    decreases n
  {
    if n > 1 {
      NoSmallDivisor();
      var q, r := BASE / n, BASE % n;
      var k := n * dist / BASE;
      assert n * dist == k * BASE;
      assert r * dist == (dist - q * k) * BASE by {
        assert BASE == q * n + r;
        assert r * dist == BASE * dist - (q * n) * dist;
        assert (q * n) * dist == q * (n * dist) == q * (k * BASE) == (q * k) * BASE;
      }
      MultipleOfBase(r * dist, dist - q * k);
      EuclidDown(r, dist);
    }
  }

  lemma MultipleOfBase(x: int, k: int)
    requires x == k * BASE
    ensures x % BASE == 0
  {
  }

  // ---------- The hash file

  /** The big-endian bytes written to the hash file. */
  function HashBytes(hash: nat): (r: Bytes)
    requires hash < WORD
    ensures |r| == 4
  {
    [(hash / 0x100_0000) as byte, (hash / 0x1_0000 % 0x100) as byte,
     (hash / 0x100 % 0x100) as byte, (hash % 0x100) as byte]
  }

  /** The stream's first four bytes; a shorter stream leaves zeros in the buffer. */
  function FirstFour(stream: Bytes): (r: Bytes)
    ensures |r| == 4
  {
    seq(4, i requires 0 <= i < 4 => if i < |stream| then stream[i] else 0)
  }

  function ParseHash(stream: Bytes): (r: nat)
    ensures r < WORD
  {
    var buf := FirstFour(stream);
    buf[0] as nat * 0x100_0000 + buf[1] as nat * 0x1_0000 + buf[2] as nat * 0x100 + buf[3] as nat
  }

  lemma Digits(b0: nat, b1: nat, b2: nat, b3: nat, h: nat)
    requires b0 < 0x100 && b1 < 0x100 && b2 < 0x100 && b3 < 0x100
    requires h == b0 * 0x100_0000 + b1 * 0x1_0000 + b2 * 0x100 + b3
    ensures h / 0x100_0000 == b0 && h / 0x1_0000 % 0x100 == b1 && h / 0x100 % 0x100 == b2 && h % 0x100 == b3
  {
    assert h / 0x1_0000 == b0 * 0x100 + b1;
    assert h / 0x100 == b0 * 0x1_0000 + b1 * 0x100 + b2;
  }

  lemma SplitOfParse(stream: Bytes)
    ensures HashBytes(ParseHash(stream)) == FirstFour(stream)
  {
    var buf := FirstFour(stream);
    Digits(buf[0] as nat, buf[1] as nat, buf[2] as nat, buf[3] as nat, ParseHash(stream));
  }

  lemma HashBytesRoundTrip(hash: nat)
    requires hash < WORD
    ensures FirstFour(HashBytes(hash)) == HashBytes(hash)
    ensures ParseHash(HashBytes(hash)) == hash
  {
    assert FirstFour(HashBytes(hash)) == HashBytes(hash);
    SumOfDigits(hash);
  }

  /** The bytes are written most significant first. */
  lemma WrittenBigEndian(hash: nat)
    requires hash < WORD
    ensures var b := HashBytes(hash);
            |b| == 4 && b[0] as nat * 0x100_0000 + b[1] as nat * 0x1_0000 + b[2] as nat * 0x100 + b[3] as nat == hash
  {
    SumOfDigits(hash);
  }

  /** Byte i of a stream, zero behind its end. */
  function PaddedByte(stream: Bytes, i: nat): nat {
    if i < |stream| then stream[i] as nat else 0
  }

  /** The bytes are read most significant first, a stream that is too short being padded with zeros. */
  lemma ReadBigEndian(stream: Bytes)
    ensures ParseHash(stream) == PaddedByte(stream, 0) * 0x100_0000 + PaddedByte(stream, 1) * 0x1_0000
                                 + PaddedByte(stream, 2) * 0x100 + PaddedByte(stream, 3)
  {
    var buf := FirstFour(stream);
    assert forall i: nat :: i < 4 ==> buf[i] as nat == PaddedByte(stream, i);
  }

  lemma SumOfDigits(h: nat)
    ensures h == h / 0x100_0000 * 0x100_0000 + h / 0x1_0000 % 0x100 * 0x1_0000 + h / 0x100 % 0x100 * 0x100 + h % 0x100
  {
    assert h / 0x1_0000 == h / 0x100 / 0x100;
    assert h / 0x100_0000 == h / 0x1_0000 / 0x100;
  }

  /** The check of the C++ reader. */
  method CheckHash(data: Bytes, stream: Bytes) returns (result: bool)
    ensures result <==> FirstFour(stream) == HashBytes(Checksum(data))
    ensures result <==> PaddedByte(stream, 0) * 0x100_0000 + PaddedByte(stream, 1) * 0x1_0000
                        + PaddedByte(stream, 2) * 0x100 + PaddedByte(stream, 3) == Checksum(data)
  {
    var calculated := CalculateHashAdler32(data);
    var parsed := ParseHash(stream);
    HashBytesRoundTrip(Checksum(data));
    HashBytesRoundTrip(parsed);
    SplitOfParse(stream);
    ReadBigEndian(stream);
    if calculated as nat == parsed {
      result := true;
    } else {
      result := false;
    }
  }

  /** The check of the Rust reader: the length test, then the comparison as 32-bit numbers. */
  predicate RustAccepts(text: Bytes, hashFile: Bytes) {
    |hashFile| == 4 && ParseHash(hashFile) == Checksum(text)
  }

  predicate CppAccepts(text: Bytes, hashFile: Bytes) {
    ParseHash(hashFile) == Checksum(text)
  }

  /** Which hash files each reader takes for a given text: Rust exactly the four bytes that were
      written, C++ every file whose zero-padded first four bytes are those. */
  lemma AcceptedHashFiles(text: Bytes, hashFile: Bytes)
    ensures RustAccepts(text, hashFile) <==> hashFile == HashBytes(Checksum(text))
    ensures CppAccepts(text, hashFile) <==> FirstFour(hashFile) == HashBytes(Checksum(text))
    ensures RustAccepts(text, hashFile) <==> CppAccepts(text, hashFile) && |hashFile| == 4
  {
    HashBytesRoundTrip(Checksum(text));
    HashBytesRoundTrip(ParseHash(hashFile));
    SplitOfParse(hashFile);
    if |hashFile| == 4 {
      assert FirstFour(hashFile) == hashFile;
    }
  }

  /** The same in numbers: each reader compares the checksum with the number that the bytes show, most
      significant first; Rust reads exactly four bytes, C++ pads a short file and ignores what follows. */
  lemma AcceptedNumbers(text: Bytes, hashFile: Bytes)
    ensures var shown := PaddedByte(hashFile, 0) * 0x100_0000 + PaddedByte(hashFile, 1) * 0x1_0000
                         + PaddedByte(hashFile, 2) * 0x100 + PaddedByte(hashFile, 3);
            && (CppAccepts(text, hashFile) <==> shown == Checksum(text))
            && (RustAccepts(text, hashFile) <==> |hashFile| == 4 && shown == Checksum(text))
  {
    ReadBigEndian(hashFile);
  }

  /** Neither reader takes a text in which one byte was changed, or two unequal bytes at a distance
      that 65521 does not divide were exchanged, with the hash file of the original. */
  lemma DamageIsRefused(text: Bytes, damaged: Bytes, prefix: Bytes, x: byte, middle: Bytes, y: byte, suffix: Bytes)
    requires x != y
    requires || (text == prefix + [x] + suffix && damaged == prefix + [y] + suffix)
             || (text == prefix + [x] + middle + [y] + suffix && damaged == prefix + [y] + middle + [x] + suffix
                 && (|middle| + 1) % BASE != 0)
    ensures !CppAccepts(damaged, HashBytes(Checksum(text))) && !RustAccepts(damaged, HashBytes(Checksum(text)))
  {
    if text == prefix + [x] + suffix && damaged == prefix + [y] + suffix {
      ByteChangeDetected(prefix, x, y, suffix);
    } else {
      SwapDetected(prefix, x, middle, y, suffix);
    }
    HashBytesRoundTrip(Checksum(text));
  }
}
