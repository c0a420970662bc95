/** Base64 with the alphabet and the padding of section 4 of RFC 4648. */
module Base64 {
  import opened Optional
  import opened Bits
  import opened Stream

  type Text = seq<Byte>
  type Sextet = n: int | 0 <= n < 64

  const PAD: Byte := 0x3D
  const ALPHABET: seq<Byte> := Range(0x41, 26) + Range(0x61, 26) + Range(0x30, 10) + [0x2B, 0x2F]

  function Range(first: Byte, n: nat): (r: seq<Byte>)
    requires first + n <= 256
  {
    seq(n, i requires 0 <= i < n => first + i)
  }

  // ----- the alphabet

  /** Value 0 to 63 as a letter: A-Z, a-z, 0-9, + and /. */
  function Letter(n: Sextet): Byte {
    if n < 26 then 0x41 + n
    else if n < 52 then 0x61 + (n - 26)
    else if n < 62 then 0x30 + (n - 52)
    else if n == 62 then 0x2B else 0x2F
  }

  lemma AlphabetIsLetters(n: Sextet)
    ensures |ALPHABET| == 64 && ALPHABET[n] == Letter(n)
  {
  }

  /** The alphabet of section 4 of RFC 4648, character by character. */
  const STANDARD := "ABCDEFGHIJKLMNOPQRSTUVWXYZ" + "abcdefghijklmnopqrstuvwxyz" + "0123456789" + "+/"

  function Standard(n: Sextet): int {
    if n < |STANDARD| then STANDARD[n] as int else 0
  }

  lemma LettersAreStandard(n: Sextet)
    ensures |STANDARD| == 64 && Letter(n) == STANDARD[n] as int == Standard(n)
  {
  }

  /** The value of a letter; None for every other byte. */
  function ValueOf(c: Byte): (r: Option<Sextet>)
    ensures r.Some? ==> Letter(r.value) == c
  {
    if 0x41 <= c <= 0x5A then Some(c - 0x41)
    else if 0x61 <= c <= 0x7A then Some(c - 0x61 + 26)
    else if 0x30 <= c <= 0x39 then Some(c - 0x30 + 52)
    else if c == 0x2B then Some(62)
    else if c == 0x2F then Some(63)
    else None
  }

  /** The position of c in the alphabet. */
  method Find(c: Byte) returns (r: Option<Sextet>)
    ensures r == ValueOf(c)
  {
    var i := 0;
    while i < 64
      invariant 0 <= i <= 64 && forall j :: 0 <= j < i ==> Letter(j) != c
    {
      AlphabetIsLetters(i);
      if ALPHABET[i] == c {
        return Some(i);
      }
      i := i + 1;
    }
    r := None;
  }

  // ----- 24 bits as three bytes and as four letters

  function Group(a: Byte, b: Byte, c: Byte): (n: nat)
    ensures n < 0x100_0000
  {
    a * 0x1_0000 + b * 0x100 + c
  }

  function Sextets4(n: nat): (s: seq<Sextet>)
    requires n < 0x100_0000
    ensures |s| == 4
  {
    [n / 0x4_0000, n / 0x1000 % 64, n / 0x40 % 64, n % 64]
  }

  function Letters(s: seq<Sextet>): (t: Text)
    ensures |t| == |s|
  {
    if s == [] then [] else [Letter(s[0])] + Letters(s[1..])
  }

  /** The encoding: every three bytes are four letters, a last group of one or two bytes is
      filled up with zero bits, and the missing letters with the padding character. */
  function Encoded(x: Text): Text {
    if x == [] then []
    else if |x| == 1 then Letters(Sextets4(Group(x[0], 0, 0))[..2]) + [PAD, PAD]
    else if |x| == 2 then Letters(Sextets4(Group(x[0], x[1], 0))[..3]) + [PAD]
    else Letters(Sextets4(Group(x[0], x[1], x[2]))) + Encoded(x[3..])
  }

  /** The values of the letters before the first padding character; other bytes are skipped. */
  function Values(t: Text): seq<Sextet> {
    if t == [] || t[0] == PAD then []
    else if ValueOf(t[0]).Some? then [ValueOf(t[0]).value] + Values(t[1..])
    else Values(t[1..])
  }

  function Ungroup(s: seq<Sextet>): (n: nat)
    requires |s| == 4
    ensures n < 0x100_0000
  {
    var a: int, b: int, c: int, d: int := s[0], s[1], s[2], s[3];
    a * 0x4_0000 + b * 0x1000 + c * 0x40 + d
  }

  function Bytes3(n: nat): (b: Text)
    requires n < 0x100_0000
    ensures |b| == 3
  {
    [n / 0x1_0000, n / 0x100 % 256, n % 256]
  }

  function ZeroFilled(s: seq<Sextet>): (r: seq<Sextet>)
    requires |s| <= 4
    ensures |r| == 4
  {
    s + seq(4 - |s|, i => 0)
  }

  /** Every four values are three bytes; a last group of two or three is one or two bytes. */
  function Unpacked(s: seq<Sextet>): Text {
    if |s| >= 4 then Bytes3(Ungroup(s[..4])) + Unpacked(s[4..])
    else if |s| == 0 then []
    else Bytes3(Ungroup(ZeroFilled(s)))[..|s| - 1]
  }

  function Decoded(t: Text): Text { Unpacked(Values(t)) }

  // ----- encoding

  /** Four letters of three bytes. */
  method EncodeGroup(three: array<Byte>) returns (four: seq<Sextet>)
    requires three.Length == 3
    ensures four == Sextets4(Group(three[0], three[1], three[2]))
  {
    hide *;
    var a, b, c := three[0], three[1], three[2];
    GroupBits(a, b, c);
    four := [FirstHigh(a), FirstLow(a) + SecondHigh(b), SecondLow(b) + ThirdHigh(c), ThirdLow(c)];
  }

  lemma GroupBits(a: Byte, b: Byte, c: Byte)
    ensures Sextets4(Group(a, b, c)) == [a / 4, a % 4 * 16 + b / 16, b % 16 * 4 + c / 64, c % 64]
  {
    TopBits(a, b, c);
    UpperBits(a, b, c);
    LowerBits(a, b, c);
    BottomBits(a, b, c);
    hide Group;
  }

  lemma TopBits(a: Byte, b: Byte, c: Byte)
    ensures Group(a, b, c) / 0x4_0000 == a / 4
  {
  }

  lemma UpperBits(a: Byte, b: Byte, c: Byte)
    ensures Group(a, b, c) / 0x1000 % 64 == a % 4 * 16 + b / 16
  {
    var m := a * 16 + b / 16;
    assert Group(a, b, c) / 0x1000 == m;
    hide Group;
    Low6(m, a / 4, a % 4 * 16 + b / 16);
  }

  lemma Low6(m: nat, q: nat, r: nat)
    requires m == 64 * q + r && r < 64
    ensures m % 64 == r
  {
  }

  lemma Low8(m: nat, q: nat, r: nat)
    requires m == 256 * q + r && r < 256
    ensures m % 256 == r
  {
  }

  lemma LowerBits(a: Byte, b: Byte, c: Byte)
    ensures Group(a, b, c) / 0x40 % 64 == b % 16 * 4 + c / 64
  {
    var m := a * 1024 + b * 4 + c / 64;
    assert Group(a, b, c) / 0x40 == m;
    hide Group;
    Low6(m, a * 16 + b / 16, b % 16 * 4 + c / 64);
  }

  lemma BottomBits(a: Byte, b: Byte, c: Byte)
    ensures Group(a, b, c) % 64 == c % 64
  {
  }

  method AppendLetters(start: Text, four: seq<Sextet>, n: nat) returns (t: Text)
    requires n <= |four|
    ensures t == start + Letters(four[..n])
  {
    t := start;
    for j := 0 to n
      invariant t == start + Letters(four[..j])
    {
      LettersPush(four[..j], four[j]);
      assert four[..j + 1] == four[..j] + [four[j]];
      AlphabetIsLetters(four[j]);
      t := t + [ALPHABET[four[j]]];
    }
  }

  lemma {:induction false} LettersPush(s: seq<Sextet>, n: Sextet)
    ensures Letters(s + [n]) == Letters(s) + [Letter(n)]
  {
    if s == [] {
      assert [n][1..] == [] && s + [n] == [n];
    } else {
      LettersPush(s[1..], n);
      assert (s + [n])[0] == s[0] && (s + [n])[1..] == s[1..] + [n];
    }
  }

  /** What is encoded, what waits for its group to fill, and what is still to come. */
  ghost predicate Encoding(encoded: Text, pending: Text, rest: Text, input: Text) {
    encoded + Encoded(pending + rest) == Encoded(input)
  }

  lemma EncodingStarts(input: Text)
    ensures Encoding([], [], input, input)
  {
    assert [] + input == input;
  }

  lemma EncodingTakes(encoded: Text, pending: Text, rest: Text, input: Text)
    requires rest != [] && Encoding(encoded, pending, rest, input)
    ensures Encoding(encoded, pending + [rest[0]], rest[1..], input)
  {
    assert pending + [rest[0]] + rest[1..] == pending + rest;
  }

  lemma EncodingEmits(encoded: Text, a: Byte, b: Byte, c: Byte, rest: Text, input: Text)
    requires Encoding(encoded, [a, b, c], rest, input)
    ensures Encoding(encoded + Letters(Sextets4(Group(a, b, c))), [], rest, input)
  {
    assert ([a, b, c] + rest)[3..] == rest && [] + rest == rest;
    var letters := Letters(Sextets4(Group(a, b, c)));
    assert Encoded([a, b, c] + rest) == letters + Encoded(rest);
    assert encoded + (letters + Encoded(rest)) == encoded + letters + Encoded(rest);
  }

  lemma EncodingEnds(encoded: Text, pending: Text, input: Text)
    requires Encoding(encoded, pending, [], input)
    ensures encoded + Encoded(pending) == Encoded(input)
  {
    assert pending + [] == pending;
  }

  method Base64Encode(input: Text) returns (encoded: Text)
    requires |input| < 0x8000_0000
    ensures encoded == Encoded(input)
  {
    hide Encoded, Letters, Encoding, Sextets4;
    encoded := [];
    var i, three := 0, new Byte[3](_ => 0);
    var length := |input|;
    EncodingStarts(input);
    assert three[..0] == [] && input[0..] == input;
    while length > 0
      invariant 0 <= length <= |input| && 0 <= i < 3
      invariant Encoding(encoded, three[..i], input[|input| - length..], input)
    {
      ghost var taken, rest := three[..i], input[|input| - length..];
      EncodingTakes(encoded, taken, rest, input);
      length := length - 1;
      three[i] := input[|input| - length - 1];
      i := i + 1;
      assert three[..i] == taken + [rest[0]] && rest[1..] == input[|input| - length..];
      if i == 3 {
        assert three[..3] == [three[0], three[1], three[2]];
        EncodingEmits(encoded, three[0], three[1], three[2], rest[1..], input);
        var four := EncodeGroup(three);
        assert four[..4] == four;
        encoded := AppendLetters(encoded, four, 4);
        i := 0;
        assert three[..0] == [];
      }
    }
    assert input[|input|..] == [];
    EncodingEnds(encoded, three[..i], input);
    encoded := EncodeTail(encoded, i, three);
  }

  /** The last group, of fewer than three bytes. */
  method EncodeTail(start: Text, n: nat, three: array<Byte>) returns (encoded: Text)
    requires n < 3 && three.Length == 3
    modifies three
    ensures encoded == start + Encoded(old(three[..n]))
  {
    encoded := start;
    if n != 0 {
      var j := n;
      while j < 3
        invariant n <= j <= 3 && three[..n] == old(three[..n]) && forall k :: n <= k < j ==> three[k] == 0
      {
        three[j] := 0;
        j := j + 1;
      }
      var four := EncodeGroup(three);
      encoded := AppendLetters(encoded, four, n + 1);
      var i := n;
      while i < 3
        invariant n <= i <= 3 && encoded == start + Letters(four[..n + 1]) + seq(i - n, k => PAD)
      {
        encoded := encoded + [PAD];
        i := i + 1;
      }
    }
  }

  // ----- decoding

  /** Three bytes of four letters. */
  method DecodeGroup(four: array<Sextet>) returns (three: Text)
    requires four.Length == 4
    ensures three == Bytes3(Ungroup(four[..]))
  {
    hide *;
    var a, b, c, d := four[0], four[1], four[2], four[3];
    UngroupBits(a, b, c, d);
    assert four[..] == [a, b, c, d];
    three := [FirstDigit(a) + SecondDigitHigh(b), SecondDigitLow(b) + ThirdDigitHigh(c), ThirdDigitLow(c) + d];
  }

  lemma UngroupBits(a: int, b: int, c: int, d: int)
    requires 0 <= a < 64 && 0 <= b < 64 && 0 <= c < 64 && 0 <= d < 64
    ensures Bytes3(Ungroup([a, b, c, d])) == [a * 4 + b / 16, b % 16 * 16 + c / 4, c % 4 * 64 + d]
  {
    TopByte(a, b, c, d);
    MiddleByte(a, b, c, d);
    BottomByte(a, b, c, d);
  }

  lemma TopByte(a: int, b: int, c: int, d: int)
    requires 0 <= a < 64 && 0 <= b < 64 && 0 <= c < 64 && 0 <= d < 64
    ensures (a * 0x4_0000 + b * 0x1000 + c * 0x40 + d) / 0x1_0000 == a * 4 + b / 16
  {
  }

  lemma MiddleByte(a: int, b: int, c: int, d: int)
    requires 0 <= a < 64 && 0 <= b < 64 && 0 <= c < 64 && 0 <= d < 64
    ensures (a * 0x4_0000 + b * 0x1000 + c * 0x40 + d) / 0x100 % 256 == b % 16 * 16 + c / 4
  {
    var m := a * 1024 + b * 16 + c / 4;
    assert (a * 0x4_0000 + b * 0x1000 + c * 0x40 + d) / 0x100 == m;
    Low8(m, a * 4 + b / 16, b % 16 * 16 + c / 4);
  }

  lemma BottomByte(a: int, b: int, c: int, d: int)
    requires 0 <= a < 64 && 0 <= b < 64 && 0 <= c < 64 && 0 <= d < 64
    ensures (a * 0x4_0000 + b * 0x1000 + c * 0x40 + d) % 256 == c % 4 * 64 + d
  {
  }

  /** What is decoded, what waits for its group to fill, and what is still to come. */
  ghost predicate Decoding(decoded: Text, pending: seq<Sextet>, rest: Text, input: Text) {
    decoded + Unpacked(pending + Values(rest)) == Decoded(input)
  }

  lemma DecodingStarts(input: Text)
    ensures Decoding([], [], input, input)
  {
    hide Unpacked, Values;
    assert [] + Values(input) == Values(input) && [] + Decoded(input) == Decoded(input);
  }

  lemma DecodingSkips(decoded: Text, pending: seq<Sextet>, rest: Text, input: Text)
    requires Decoding(decoded, pending, rest, input) && rest != [] && rest[0] != PAD && ValueOf(rest[0]).None?
    ensures Decoding(decoded, pending, rest[1..], input)
  {
    hide Unpacked;
  }

  lemma DecodingTakes(decoded: Text, pending: seq<Sextet>, rest: Text, input: Text)
    requires Decoding(decoded, pending, rest, input) && rest != [] && rest[0] != PAD && ValueOf(rest[0]).Some?
    ensures Decoding(decoded, pending + [ValueOf(rest[0]).value], rest[1..], input)
  {
    ValuesStep(rest);
    hide Unpacked, Values, ValueOf;
    var v, more := ValueOf(rest[0]).value, Values(rest[1..]);
    assert pending + ([v] + more) == pending + [v] + more;
  }

  lemma DecodingEmits(decoded: Text, four: seq<Sextet>, rest: Text, input: Text)
    requires Decoding(decoded, four, rest, input) && |four| == 4
    ensures Decoding(decoded + Bytes3(Ungroup(four)), [], rest, input)
  {
    hide Unpacked, Values, Bytes3, Ungroup;
    UnpackedStep(four, Values(rest));
    assert [] + Values(rest) == Values(rest);
    var three, more := Bytes3(Ungroup(four)), Unpacked(Values(rest));
    assert decoded + (three + more) == decoded + three + more;
  }

  lemma DecodingEnds(decoded: Text, pending: seq<Sextet>, rest: Text, input: Text)
    requires Decoding(decoded, pending, rest, input) && (rest == [] || rest[0] == PAD)
    ensures decoded + Unpacked(pending) == Decoded(input)
  {
    hide Unpacked;
    assert pending + [] == pending;
  }

  method Base64Decode(input: Text) returns (decoded: Text)
    ensures decoded == Decoded(input)
  {
    hide Unpacked, Decoding, ValueOf;
    decoded := [];
    var i, four := 0, new Sextet[4](_ => 0);
    var k := 0;
    assert input[0..] == input && four[..0] == [];
    DecodingStarts(input);
    while k < |input|
      invariant 0 <= k <= |input| && 0 <= i < 4
      invariant Decoding(decoded, four[..i], input[k..], input)
    {
      ghost var taken, rest := four[..i], input[k..];
      assert rest[0] == input[k] && rest[1..] == input[k + 1..];
      if input[k] == PAD {
        break;
      }
      var index := Find(input[k]);
      k := k + 1;
      if index.None? {
        DecodingSkips(decoded, taken, rest, input);
        continue;
      }
      DecodingTakes(decoded, taken, rest, input);
      four[i] := index.value;
      i := i + 1;
      assert four[..i] == taken + [index.value];
      if i == 4 {
        assert four[..4] == four[..];
        DecodingEmits(decoded, four[..], input[k..], input);
        var three := DecodeGroup(four);
        decoded := decoded + three;
        i := 0;
        assert four[..0] == [];
      }
    }
    DecodingEnds(decoded, four[..i], input[k..], input);
    decoded := DecodeTail(decoded, i, four);
  }

  /** The last group, of fewer than four values. */
  method DecodeTail(start: Text, n: nat, four: array<Sextet>) returns (decoded: Text)
    requires n < 4 && four.Length == 4
    modifies four
    ensures decoded == start + Unpacked(old(four[..n]))
  {
    decoded := start;
    if n != 0 {
      ghost var values := four[..n];
      var k := n;
      while k < 4
        invariant n <= k <= 4 && four[..n] == values && forall j :: n <= j < k ==> four[j] == 0
      {
        four[k] := 0;
        k := k + 1;
      }
      assert four[..] == ZeroFilled(values);
      var three := DecodeGroup(four);
      decoded := decoded + three[..n - 1];
    }
  }

  lemma ValuesStep(t: Text)
    requires t != []
    ensures Values(t)
         == if t[0] == PAD then []
            else if ValueOf(t[0]).Some? then [ValueOf(t[0]).value] + Values(t[1..])
            else Values(t[1..])
  {
  }

  lemma UnpackedStep(four: seq<Sextet>, rest: seq<Sextet>)
    requires |four| == 4
    ensures Unpacked(four + rest) == Bytes3(Ungroup(four)) + Unpacked(rest)
  {
    assert (four + rest)[..4] == four && (four + rest)[4..] == rest;
  }

  // ----- the round trip

  lemma {:induction false} ValuesOfLetters(s: seq<Sextet>, rest: Text)
    ensures Values(Letters(s) + rest) == s + Values(rest)
    decreases |s|
  {
    hide Values, Letters, ValueOf, Letter;
    if s == [] {
      NoLetters(rest);
      assert s + Values(rest) == Values(rest);
    } else {
      LettersStep(s, rest);
      ValuesOfOne(s[0], Letters(s[1..]) + rest);
      ValuesOfLetters(s[1..], rest);
      Joined(s[..1], s[1..], Values(rest));
      assert s == s[..1] + s[1..] && s[..1] == [s[0]];
    }
  }

  lemma Joined<T>(a: seq<T>, b: seq<T>, c: seq<T>)
    ensures a + (b + c) == a + b + c
  {
  }

  lemma ValuesOfOne(n: Sextet, rest: Text)
    ensures Values([Letter(n)] + rest) == [n] + Values(rest)
  {
    ValueOfLetter(n);
    hide ValueOf, Letter;
    assert ([Letter(n)] + rest)[1..] == rest;
  }

  lemma NoLetters(rest: Text)
    ensures Letters([]) + rest == rest
  {
  }

  lemma LettersStep(s: seq<Sextet>, rest: Text)
    requires s != []
    ensures Letters(s) + rest == [Letter(s[0])] + (Letters(s[1..]) + rest)
  {
    hide Letter;
    var u := Letters(s[1..]);
    assert Letters(s) == [Letter(s[0])] + u;
    hide Letters;
    Joined([Letter(s[0])], u, rest);
  }

  lemma ValueOfLetter(n: Sextet)
    ensures ValueOf(Letter(n)) == Some(n) && Letter(n) != PAD
  {
  }

  lemma Regrouped(a: Byte, b: Byte, c: Byte)
    ensures Ungroup(Sextets4(Group(a, b, c))) == Group(a, b, c) && Bytes3(Group(a, b, c)) == [a, b, c]
  {
    SextetsAreDigits(Group(a, b, c));
    GroupBytes(a, b, c);
    hide Group;
  }

  lemma SextetsAreDigits(n: nat)
    requires n < 0x100_0000
    ensures n / 0x4_0000 < 64
    ensures n / 0x4_0000 * 0x4_0000 + n / 0x1000 % 64 * 0x1000 + n / 0x40 % 64 * 0x40 + n % 64 == n
  {
    var m := n / 0x40;
    assert n == m * 0x40 + n % 64;
    var l := m / 0x40;
    assert n / 0x1000 == l && m == l * 0x40 + m % 64;
    assert n / 0x4_0000 == l / 0x40 && l == l / 0x40 * 0x40 + l % 64;
  }

  lemma GroupBytes(a: Byte, b: Byte, c: Byte)
    ensures Bytes3(Group(a, b, c)) == [a, b, c]
  {
    var n := Group(a, b, c);
    assert n / 0x1_0000 == a;
    assert n / 0x100 == a * 0x100 + b;
  }

  /** A group cut short: the letters kept are enough to give back its bytes. */
  lemma TailDecoded(a: Byte, b: Byte, n: nat)
    requires n == 1 || n == 2
    requires n == 1 ==> b == 0
    ensures Unpacked(Sextets4(Group(a, b, 0))[..n + 1]) == [a, b][..n]
  {
    var s := Sextets4(Group(a, b, 0));
    GroupBits(a, b, 0);
    assert ZeroFilled(s[..n + 1]) == s;
    Regrouped(a, b, 0);
    assert [a, b, 0][..n] == [a, b][..n];
  }

  /** Decoding what was encoded gives back every byte string. */
  lemma {:induction false} RoundTrip(x: Text)
    ensures Decoded(Encoded(x)) == x
    decreases |x|
  {
    if x == [] {
    } else if |x| < 3 {
      var n := |x|;
      var b := if n == 2 then x[1] else 0;
      var s := Sextets4(Group(x[0], b, 0));
      ValuesOfLetters(s[..n + 1], if n == 1 then [PAD, PAD] else [PAD]);
      assert s[..n + 1] + [] == s[..n + 1];
      TailDecoded(x[0], b, n);
    } else {
      var s := Sextets4(Group(x[0], x[1], x[2]));
      ValuesOfLetters(s, Encoded(x[3..]));
      UnpackedStep(s, Values(Encoded(x[3..])));
      Regrouped(x[0], x[1], x[2]);
      RoundTrip(x[3..]);
      assert [x[0], x[1], x[2]] + x[3..] == x;
    }
  }

  /** The letters of the first group; all of the encoding when there is no other. */
  lemma EncodedFront(x: Text) returns (s: seq<Sextet>)
    requires x != []
    ensures |s| == if |x| < 3 then |x| + 1 else 4
    ensures Encoded(x) == Letters(s) + if |x| == 1 then [PAD, PAD] else if |x| == 2 then [PAD] else Encoded(x[3..])
  {
    hide Letters;
    var n := |x|;
    s := if n >= 3 then Sextets4(Group(x[0], x[1], x[2]))
         else Sextets4(Group(x[0], if n == 2 then x[1] else 0, 0))[..n + 1];
  }

  /** How many groups n bytes make, a begun one included. */
  function Groups(n: nat): nat { (n + 2) / 3 }

  /** Four letters for every group. */
  lemma {:induction false} EncodedLength(x: Text)
    ensures |Encoded(x)| == 4 * Groups(|x|)
    decreases |x|
  {
    ThreeLess(|x|);
    if x != [] {
      hide Encoded, Letters, Groups;
      var s := EncodedFront(x);
      if |x| >= 3 {
        EncodedLength(x[3..]);
      }
    }
  }

  lemma ThreeLess(n: nat)
    ensures n >= 3 ==> Groups(n) == Groups(n - 3) + 1
    ensures 1 <= n < 3 ==> Groups(n) == 1
  {
  }

  /** How many letters the last group lacks. */
  function Pads(n: nat): nat { (3 - n % 3) % 3 }

  lemma PadsOfThreeLess(n: nat)
    ensures n >= 3 ==> Pads(n) == Pads(n - 3)
    ensures Pads(0) == 0 && Pads(1) == 2 && Pads(2) == 1
  {
  }

  ghost predicate Shaped(t: Text, pads: nat) {
    forall i :: 0 <= i < |t| ==> if i < |t| - pads then ValueOf(t[i]).Some? else t[i] == PAD
  }

  lemma ShapedPush(s: seq<Sextet>, t: Text, pads: nat)
    requires Shaped(t, pads) && pads <= |t|
    ensures Shaped(Letters(s) + t, pads)
  {
    hide ValueOf, Letters;
    LettersHaveValues(s);
    var u := Letters(s) + t;
    forall i | 0 <= i < |u| ensures if i < |u| - pads then ValueOf(u[i]).Some? else u[i] == PAD {
      if i >= |s| {
        assert u[i] == t[i - |s|];
      }
    }
  }

  lemma AllPads(t: Text)
    requires t == [PAD] || t == [PAD, PAD]
    ensures Shaped(t, |t|)
  {
  }

  /** The text is letters, and at its end the padding character exactly as often as bytes are
      missing from the last group. */
  lemma {:induction false} EncodedShape(x: Text)
    ensures Shaped(Encoded(x), Pads(|x|)) && Pads(|x|) <= |Encoded(x)|
    decreases |x|
  {
    PadsOfThreeLess(|x|);
    if x != [] {
      hide Encoded, Letters, Shaped, Pads;
      var s := EncodedFront(x);
      if |x| < 3 {
        var pads := if |x| == 1 then [PAD, PAD] else [PAD];
        AllPads(pads);
        ShapedPush(s, pads, |pads|);
      } else {
        EncodedShape(x[3..]);
        ShapedPush(s, Encoded(x[3..]), Pads(|x|));
      }
    }
  }

  lemma {:induction false} LettersHaveValues(s: seq<Sextet>)
    ensures forall i :: 0 <= i < |s| ==> ValueOf(Letters(s)[i]) == Some(s[i])
  {
    if s != [] {
      ValueOfLetter(s[0]);
      LettersHaveValues(s[1..]);
    }
  }

  /** Nothing after the first padding character is read. */
  lemma PaddingEnds(a: Text, b: Text)
    ensures Decoded(a + [0x3D] + b) == Decoded(a)
  {
    ValuesEnd(a, b);
  }

  lemma {:induction false} ValuesEnd(a: Text, b: Text)
    ensures Values(a + [PAD] + b) == Values(a)
  {
    var t := a + [PAD] + b;
    if a != [] {
      assert t[0] == a[0] && t[1..] == a[1..] + [PAD] + b;
      ValuesEnd(a[1..], b);
    }
  }

  /** Byte i of a decoding takes its upper bits from value i + i / 3 and its lower ones from the
      next value. */
  ghost predicate ByteAt(b: Text, s: seq<Sextet>, i: nat) {
    var k := i + i / 3;
    && i < |b| && k + 1 < |s|
    && var v: int, w: int := s[k], s[k + 1];
       b[i] == if i % 3 == 0 then v * 4 + w / 16 else if i % 3 == 1 then v % 16 * 16 + w / 4 else v % 4 * 64 + w
  }

  /** The decoding by position: n values give three bytes for every four, and one less than are
      left over. */
  lemma {:induction false} DecodedAt(s: seq<Sextet>)
    ensures |Unpacked(s)| == |s| / 4 * 3 + if |s| % 4 == 0 then 0 else |s| % 4 - 1
    ensures forall i :: 0 <= i < |Unpacked(s)| ==> ByteAt(Unpacked(s), s, i)
    decreases |s|
  {
    if |s| < 4 {
      FewDecoded(s);
    } else {
      var four, more := s[..4], s[4..];
      var front, back := Bytes3(Ungroup(four)), Unpacked(more);
      assert s == four + more;
      hide Bytes3, Ungroup, Unpacked, ByteAt;
      UnpackedStep(four, more);
      FourDecoded(four, s);
      DecodedAt(more);
      forall i | 0 <= i < |front + back|
        ensures ByteAt(front + back, s, i)
      {
        if i < 3 {
          ByteStays(front, back, s, i);
        } else {
          ByteMoves(front, back, s, i);
        }
      }
    }
  }

  lemma FewDecoded(s: seq<Sextet>)
    requires |s| < 4
    ensures |Unpacked(s)| == (if |s| == 0 then 0 else |s| - 1)
    ensures forall i :: 0 <= i < |Unpacked(s)| ==> ByteAt(Unpacked(s), s, i)
  {
    if s != [] {
      var b := Bytes3(Ungroup(ZeroFilled(s)));
      FourDecoded(ZeroFilled(s), s);
      hide Bytes3, Ungroup, ByteAt;
      var cut := b[..|s| - 1];
      forall i | 0 <= i < |s| - 1
        ensures ByteAt(cut, s, i)
      {
        ByteCut(b, |s| - 1, s, i);
      }
    }
  }

  lemma ByteCut(b: Text, n: nat, s: seq<Sextet>, i: nat)
    requires ByteAt(b, s, i) && i < n <= |b|
    ensures ByteAt(b[..n], s, i)
  {
  }

  lemma ByteStays(front: Text, back: Text, s: seq<Sextet>, i: nat)
    requires ByteAt(front, s, i)
    ensures ByteAt(front + back, s, i)
  {
  }

  lemma ByteMoves(front: Text, back: Text, s: seq<Sextet>, i: nat)
    requires |s| >= 4 && |front| == 3 <= i && ByteAt(back, s[4..], i - 3)
    ensures ByteAt(front + back, s, i)
  {
    assert i / 3 == (i - 3) / 3 + 1 && i % 3 == (i - 3) % 3;
    var k := i - 3 + (i - 3) / 3;
    assert s[4..][k] == s[k + 4] && s[4..][k + 1] == s[k + 5];
  }

  /** The three bytes of four values, of which the first ones are those of s. */
  lemma FourDecoded(four: seq<Sextet>, s: seq<Sextet>)
    requires |four| == 4 && forall i :: 0 <= i < 4 && i < |s| ==> four[i] == s[i]
    ensures forall i :: 0 <= i < 3 && i + 1 < |s| ==> ByteAt(Bytes3(Ungroup(four)), s, i)
  {
    UngroupBits(four[0], four[1], four[2], four[3]);
    hide Bytes3, Ungroup;
    assert four == [four[0], four[1], four[2], four[3]];
  }

  /** Bytes that are neither letters nor padding may be put anywhere. */
  lemma {:induction false} NoiseIsSkipped(a: Text, c: Byte, b: Text)
    requires ValueOf(c).None? && c != PAD
    ensures Decoded(a + [c] + b) == Decoded(a + b)
  {
    NoiseHasNoValue(a, c, b);
  }

  lemma {:induction false} NoiseHasNoValue(a: Text, c: Byte, b: Text)
    requires ValueOf(c).None? && c != PAD
    ensures Values(a + [c] + b) == Values(a + b)
  {
    var t, u := a + [c] + b, a + b;
    if a == [] {
      assert t[1..] == b && u == b;
    } else {
      assert t[0] == u[0] == a[0] && t[1..] == a[1..] + [c] + b && u[1..] == a[1..] + b;
      NoiseHasNoValue(a[1..], c, b);
    }
  }

  /** The bytes of group g, absent ones as zero, and the four characters that stand for them: the
      upper six bits of the first byte, its lower two and the upper four of the second, the lower
      four of that and the upper two of the third, and the lower six; '=' where a byte is absent. */
  ghost predicate GroupAt(t: Text, x: Text, g: nat)
    requires 3 * g < |x|
  {
    var i, o := 3 * g, 4 * g;
    var a, b, c := x[i], if i + 1 < |x| then x[i + 1] else 0, if i + 2 < |x| then x[i + 2] else 0;
    && o + 4 <= |t|
    && t[o] == Standard(a / 4) && t[o + 1] == Standard(a % 4 * 16 + b / 16)
    && t[o + 2] == (if i + 1 < |x| then Standard(b % 16 * 4 + c / 64) else '=' as int)
    && t[o + 3] == (if i + 2 < |x| then Standard(c % 64) else '=' as int)
  }

  lemma FirstGroupAt(x: Text)
    requires x != []
    ensures GroupAt(Encoded(x), x, 0)
  {
    hide Encoded, Letters, Standard, GroupAt, Group, Sextets4;
    var a, b, c := x[0], if 1 < |x| then x[1] else 0, if 2 < |x| then x[2] else 0;
    var n, s := if |x| < 3 then |x| + 1 else 4, Sextets4(Group(a, b, c));
    var rest := FirstLetters(x, s, n);
    GroupBits(a, b, c);
    LettersAt(s, n);
    GroupFits(x, s, Letters(s[..n]), rest);
  }

  lemma GroupFits(x: Text, s: seq<int>, u: Text, rest: Text)
    requires x != [] && |s| == 4 && |u| == if |x| < 3 then |x| + 1 else 4
    requires forall i :: 0 <= i < |u| ==> 0 <= s[i] < 64 && u[i] == Standard(s[i])
    requires var a, b, c := x[0], if 1 < |x| then x[1] else 0, if 2 < |x| then x[2] else 0;
             s == [a / 4, a % 4 * 16 + b / 16, b % 16 * 4 + c / 64, c % 64]
    requires (|x| == 1 ==> rest == [0x3D, 0x3D]) && (|x| == 2 ==> rest == [0x3D])
    ensures GroupAt(u + rest, x, 0)
  {
    hide Standard;
  }

  lemma FirstLetters(x: Text, s: seq<Sextet>, n: nat) returns (rest: Text)
    requires x != [] && n == if |x| < 3 then |x| + 1 else 4
    requires s == Sextets4(Group(x[0], if 1 < |x| then x[1] else 0, if 2 < |x| then x[2] else 0))
    ensures Encoded(x) == Letters(s[..n]) + rest && (|x| == 1 ==> rest == [0x3D, 0x3D]) && (|x| == 2 ==> rest == [0x3D])
  {
    assert s[..4] == s;
    hide Letters, Sextets4, Group;
    rest := Encoded(x)[n..];
  }

  lemma LettersAt(s: seq<Sextet>, n: nat)
    requires n <= |s|
    ensures |Letters(s[..n])| == n && forall i :: 0 <= i < n ==> Letters(s[..n])[i] == Standard(s[i])
  {
    hide Letter, Standard, ValueOf;
    LettersHaveValues(s[..n]);
    forall i | 0 <= i < n
      ensures Letters(s[..n])[i] == Standard(s[i])
    {
      assert s[..n][i] == s[i];
      LettersAreStandard(s[i]);
    }
  }

  /** Every group of the encoding, by position; there is nothing else in it. */
  lemma {:induction false} EncodedAt(x: Text, g: nat)
    requires 3 * g < |x|
    ensures GroupAt(Encoded(x), x, g) && |Encoded(x)| == (|x| + 2) / 3 * 4
    decreases |x|
  {
    EncodedLength(x);
    hide Encoded, Letters;
    if g == 0 {
      FirstGroupAt(x);
    } else {
      var s := EncodedFront(x);
      EncodedAt(x[3..], g - 1);
      GroupMoves(Letters(s), Encoded(x[3..]), x, g);
    }
  }

  lemma GroupMoves(front: Text, t: Text, x: Text, g: nat)
    requires 0 < 3 * g < |x| && |front| == 4 && GroupAt(t, x[3..], g - 1)
    ensures GroupAt(front + t, x, g)
  {
    hide Standard;
    var u, y, i := front + t, x[3..], 3 * g;
    assert y[i - 3] == x[i] && (i + 1 < |x| ==> y[i - 2] == x[i + 1]) && (i + 2 < |x| ==> y[i - 1] == x[i + 2]);
    assert forall k :: 0 <= k < |t| ==> u[4 + k] == t[k];
  }

  // ----- canonical texts

  /** Groups of four: letters, then the padding, and no bit set in the last letter that is not a
      bit of the last byte. */
  ghost predicate CanonicalWith(t: Text, pads: nat) {
    && |t| % 4 == 0 && pads <= 2 && pads <= |t| && Shaped(t, pads)
    && (pads > 0 ==> UnusedBits(t, pads) == 0)
  }

  ghost predicate Canonical(t: Text) {
    exists pads: nat :: CanonicalWith(t, pads)
  }

  /** The bits of the last letter that no byte takes. */
  function UnusedBits(t: Text, pads: nat): nat
    requires pads < |t|
  {
    var last := ValueOf(t[|t| - 1 - pads]);
    if last.None? then 0 else last.value % (if pads == 1 then 4 else 16)
  }

  lemma LettersOfBytes(a: int, b: int, c: int, d: int)
    requires 0 <= a < 64 && 0 <= b < 64 && 0 <= c < 64 && 0 <= d < 64
    ensures var three := Bytes3(Ungroup([a, b, c, d]));
            Sextets4(Group(three[0], three[1], three[2])) == [a, b, c, d]
  {
    UngroupBits(a, b, c, d);
    hide Ungroup, Bytes3;
    JoinedBits(a, b);
    JoinedBytes(b, c);
    var x, y, z := a * 4 + b / 16, b % 16 * 16 + c / 4, c % 4 * 64 + d;
    GroupBits(x, y, z);
  }

  lemma JoinedBits(a: int, b: int)
    requires 0 <= a < 64 && 0 <= b < 64
    ensures (a * 4 + b / 16) / 4 == a && (a * 4 + b / 16) % 4 * 16 + b % 16 == b
  {
  }

  lemma JoinedBytes(b: int, c: int)
    requires 0 <= b < 64 && 0 <= c < 64
    ensures (b % 16 * 16 + c / 4) / 16 == b % 16 && (b % 16 * 16 + c / 4) % 16 * 4 + c % 4 == c
  {
  }

  /** The first four letters of a text, as values. */
  lemma LettersFront(t: Text, n: nat) returns (s: seq<Sextet>)
    requires n <= |t| && forall i :: 0 <= i < n ==> ValueOf(t[i]).Some?
    ensures |s| == n && t[..n] == Letters(s) && forall i :: 0 <= i < n ==> ValueOf(t[i]) == Some(s[i])
  {
    s := seq(n, i requires 0 <= i < n => ValueOf(t[i]).value);
    LettersHaveValues(s);
  }

  /** A last group with padding is given back. */
  lemma TailReencoded(t: Text, pads: nat)
    requires |t| == 4 && 0 < pads && CanonicalWith(t, pads)
    ensures Encoded(Decoded(t)) == t
  {
    var s := LettersFront(t, 4 - pads);
    var filling := if pads == 1 then [PAD] else [PAD, PAD];
    assert t == Letters(s) + filling;
    ValuesOfLetters(s, filling);
    assert Values(filling) == [] && s + [] == s;
    var c := if pads == 1 then s[2] else 0;
    assert ZeroFilled(s) == [s[0], s[1], c, 0];
    TailBytes(s[0], s[1], c);
    LettersOfBytes(s[0], s[1], c, 0);
    hide Ungroup, Bytes3, Sextets4, Group, Values;
    assert [s[0], s[1], c, 0][..4 - pads] == s;
  }

  lemma TailBytes(a: int, b: int, c: int)
    requires 0 <= a < 64 && 0 <= b < 64 && 0 <= c < 64 && c % 4 == 0
    ensures Bytes3(Ungroup([a, b, c, 0]))[2] == 0
    ensures b % 16 == 0 && c == 0 ==> Bytes3(Ungroup([a, b, c, 0]))[1] == 0
  {
    UngroupBits(a, b, c, 0);
  }

  lemma {:induction false} Reencoded(t: Text, pads: nat)
    requires CanonicalWith(t, pads)
    ensures Encoded(Decoded(t)) == t
    decreases |t|
  {
    if t == [] {
    } else if |t| == 4 && pads > 0 {
      TailReencoded(t, pads);
    } else {
      var s := LettersFront(t, 4);
      var rest := t[4..];
      CanonicalRest(t, pads);
      Reencoded(rest, pads);
      assert t == Letters(s) + rest;
      ValuesOfLetters(s, rest);
      UnpackedStep(s, Values(rest));
      assert s == [s[0], s[1], s[2], s[3]];
      LettersOfBytes(s[0], s[1], s[2], s[3]);
      EncodedStep(Bytes3(Ungroup(s)), Decoded(rest));
    }
  }

  lemma CanonicalRest(t: Text, pads: nat)
    requires CanonicalWith(t, pads) && |t| >= 4 && (|t| == 4 ==> pads == 0)
    ensures CanonicalWith(t[4..], pads)
  {
    assert |t| >= 4 + pads;
  }

  lemma EncodedStep(three: Text, rest: Text)
    requires |three| == 3
    ensures Encoded(three + rest) == Letters(Sextets4(Group(three[0], three[1], three[2]))) + Encoded(rest)
  {
    assert (three + rest)[3..] == rest;
  }

  /** The encoder leaves the bits it has no byte for at zero. */
  lemma {:induction false} EncodedUnused(x: Text)
    ensures Pads(|x|) > 0 ==> Pads(|x|) < |Encoded(x)| && UnusedBits(Encoded(x), Pads(|x|)) == 0
    decreases |x|
  {
    PadsOfThreeLess(|x|);
    if |x| >= 3 {
      hide Encoded, Letters, Pads, UnusedBits;
      var s := EncodedFront(x);
      EncodedUnused(x[3..]);
      if Pads(|x|) > 0 {
        UnusedBehind(Letters(s), Encoded(x[3..]), Pads(|x|));
      }
    } else if x != [] {
      TailUnused(x);
    }
  }

  lemma UnusedBehind(u: Text, t: Text, pads: nat)
    requires pads < |t|
    ensures UnusedBits(u + t, pads) == UnusedBits(t, pads)
  {
    hide ValueOf;
  }

  lemma TailUnused(x: Text)
    requires 1 <= |x| < 3
    ensures var pads := 3 - |x|; pads < |Encoded(x)| && UnusedBits(Encoded(x), pads) == 0
  {
    var b := if |x| == 2 then x[1] else 0;
    var s := Sextets4(Group(x[0], b, 0))[..|x| + 1];
    GroupBits(x[0], b, 0);
    ZeroLow(x[0], b);
    LettersHaveValues(s);
    hide Letters, Sextets4, Group, ValueOf;
    var t := Encoded(x);
    assert |t| == 4 && t[..|x| + 1] == Letters(s);
    assert t[|x|] == Letters(s)[|x|];
    assert s[|x|] == if |x| == 2 then b % 16 * 4 else x[0] % 4 * 16;
  }

  lemma ZeroLow(a: Byte, b: Byte)
    ensures b % 16 * 4 % 4 == 0 && a % 4 * 16 % 16 == 0
  {
  }

  lemma EncodedIsCanonical(x: Text)
    ensures Canonical(Encoded(x))
  {
    hide Encoded, Shaped, UnusedBits;
    EncodedLength(x);
    EncodedShape(x);
    EncodedUnused(x);
    assert CanonicalWith(Encoded(x), Pads(|x|));
  }

  /** Encoding what was decoded gives back exactly the canonical texts. */
  lemma CanonicalRoundTrip(t: Text)
    ensures Encoded(Decoded(t)) == t <==> Canonical(t)
  {
    hide Encoded, Decoded, CanonicalWith;
    if Canonical(t) {
      var pads: nat :| CanonicalWith(t, pads);
      Reencoded(t, pads);
    }
    EncodedIsCanonical(Decoded(t));
  }
}
