/** Printing numbers, with an inner loop that prints a run of zeros at once, and reading them back. */
module NumberText {
  import opened Optional
  import opened Stream
  import opened Reading
  import opened StreamReader

  type Text = seq<Byte>
  type Word = n: int | 0 <= n < WORD

  const NO_WIDTH := 255
  const SIGN_FOR_NEGATIVES := 1
  const SIGN_FOR_POSITIVES := 2

  // ----- digits

  predicate Base(base: nat) { base == 10 || base == 16 }

  function DigitChar(d: nat, upper: bool): Byte
    requires d < 16
  {
    if d <= 9 then 0x30 + d else if upper then d - 10 + 0x41 else d - 10 + 0x61
  }

  function Power(base: nat, n: nat): (p: nat)
    requires Base(base)
    ensures p > 0
  {
    if n == 0 then 1 else base * Power(base, n - 1)
  }

  /** The n low digits of num, the most significant first. */
  function Fixed(num: nat, n: nat, base: nat, upper: bool): (s: Text)
    requires Base(base)
    ensures |s| == n
  {
    if n == 0 then [] else Fixed(num / base, n - 1, base, upper) + [DigitChar(num % base, upper)]
  }

  /** How many digits num has. */
  function Count(num: nat, base: nat): (n: nat)
    requires Base(base)
    ensures n >= 1
  {
    if num < base then 1 else 1 + Count(num / base, base)
  }

  lemma FixedStep(num: nat, n: nat, base: nat, upper: bool)
    requires Base(base)
    ensures Fixed(num, n + 1, base, upper) == Fixed(num / base, n, base, upper) + [DigitChar(num % base, upper)]
    ensures Power(base, n + 1) == base * Power(base, n)
  {
  }

  /** The first digit can be split off, by the power of the base that goes with it. */
  lemma {:induction false} FixedFront(q: nat, r: nat, n: nat, base: nat, upper: bool)
    requires Base(base) && q < base && r < Power(base, n)
    ensures Fixed(q * Power(base, n) + r, n + 1, base, upper) == [DigitChar(q, upper)] + Fixed(r, n, base, upper)
    decreases n
  {
    if n == 0 {
      FixedStep(q, 0, base, upper);
      assert q * Power(base, n) + r == q;
    } else {
      hide *;
      FixedStep(r, n - 1, base, upper);
      var num := Recomposed(q, Power(base, n - 1), Power(base, n), r, base);
      FixedFront(q, r / base, n - 1, base, upper);
      FixedStep(num, n, base, upper);
      Regroup(DigitChar(q, upper), Fixed(r / base, n - 1, base, upper), DigitChar(r % base, upper));
    }
  }

  lemma Regroup(a: Byte, s: Text, b: Byte)
    ensures [a] + s + [b] == [a] + (s + [b])
  {
  }

  /** Taking the low digit off a number composed of a first digit and a rest. */
  lemma Recomposed(q: nat, p: nat, next: nat, r: nat, base: nat) returns (num: nat)
    requires Base(base) && next == base * p && r < next
    ensures num == q * next + r && num / base == q * p + r / base && num % base == r % base
    ensures r / base < p
  {
    num := q * next + r;
    Multiples(q, p, base);
    if base == 10 {
      LowDigit10(q * p, r);
    } else {
      LowDigit16(q * p, r);
    }
  }

  lemma Multiples(q: nat, p: nat, base: nat)
    ensures q * (base * p) == base * (q * p)
  {
  }

  lemma LowDigit10(m: nat, r: nat)
    ensures (10 * m + r) / 10 == m + r / 10 && (10 * m + r) % 10 == r % 10
  {
  }

  lemma LowDigit16(m: nat, r: nat)
    ensures (16 * m + r) / 16 == m + r / 16 && (16 * m + r) % 16 == r % 16
  {
  }

  lemma {:induction false} FixedPadded(num: nat, n: nat, k: nat, base: nat, upper: bool)
    requires Base(base) && num < Power(base, n)
    ensures Fixed(num, n + k, base, upper) == seq(k, i => 0x30) + Fixed(num, n, base, upper)
    decreases k
  {
    if k > 0 {
      PowerGrows(base, n, n + k - 1);
      FixedFront(0, num, n + k - 1, base, upper);
      FixedPadded(num, n, k - 1, base, upper);
      assert [0x30] + seq(k - 1, i => 0x30) == seq(k, i => 0x30);
    }
  }

  lemma {:induction false} PowerGrows(base: nat, m: nat, n: nat)
    requires Base(base) && m <= n
    ensures Power(base, m) <= Power(base, n)
    decreases n - m
  {
    if m < n {
      PowerGrows(base, m, n - 1);
    }
  }

  // ----- printing

  datatype Options = Options(base: nat, width: nat, upper: bool, signMask: nat, isNegative: bool)

  /** Sign and base prefix. */
  function Lead(opts: Options): Text {
    (if opts.isNegative then (if opts.signMask % 2 == 1 then [0x2D] else [])
     else if opts.signMask / 2 % 2 == 1 then [0x2B] else [])
    + if opts.base == 16 then [0x30, 0x78] else []
  }

  /** How many digits are printed before any are cut off: as many as num has, or as the width
      asks for. */
  function Width(num: nat, opts: Options): nat
    requires Base(opts.base)
  {
    var n := Count(num, opts.base);
    if opts.width != NO_WIDTH && n < opts.width then opts.width else n
  }

  /** How many digits are to be cut off for a width that is too small. */
  function Excess(num: nat, opts: Options): nat
    requires Base(opts.base)
  {
    var n := Count(num, opts.base);
    if opts.width != NO_WIDTH && n > opts.width then n - opts.width else 0
  }

  /** What cutting off leaves of the digits: a zero after the first digit is printed in any
      case, so that only the first digit and those other than zero count as cut off. */
  function Shown(digits: Text, skip: nat, first: bool): (t: Text)
    ensures |t| <= |digits|
  {
    if digits == [] then []
    else if digits[0] == 0x30 && !first then [0x30] + Shown(digits[1..], skip, false)
    else if skip == 0 then [digits[0]] + Shown(digits[1..], 0, false)
    else Shown(digits[1..], skip - 1, false)
  }

  /** The digits printed for num. */
  function Numeral(num: nat, opts: Options): Text
    requires Base(opts.base)
  {
    Shown(Fixed(num, Width(num, opts), opts.base, opts.upper), Excess(num, opts), true)
  }

  /** The largest power of the base that is no larger than num, and the number of its digits. */
  method FirstDivisor(num: Word, base: nat) returns (divisor: Word, digitCount: nat)
    requires Base(base)
    ensures digitCount == Count(num, base) && digitCount <= 20
    ensures divisor == Power(base, digitCount - 1) && num < Power(base, digitCount)
  {
    divisor, digitCount := 1, 1;
    FirstPower(num, base);
    hide Count, Power;
    while num / divisor >= base
      invariant Climbing(num, divisor, digitCount, base)
      decreases num - divisor
    {
      ClimbingStep(num, divisor, digitCount, base);
      divisor := divisor * base;
      digitCount := digitCount + 1;
    }
    ClimbingEnds(num, divisor, digitCount, base);
    CountBound(num, base);
  }

  /** The search for the first divisor: what is left of num above it has the digits not counted yet. */
  ghost predicate Climbing(num: nat, divisor: nat, digitCount: nat, base: nat)
    requires Base(base)
  {
    && divisor > 0 && digitCount >= 1 && divisor == Power(base, digitCount - 1) && (divisor <= num || divisor == 1)
    && Count(num / divisor, base) + digitCount - 1 == Count(num, base)
  }

  lemma FirstPower(num: nat, base: nat)
    requires Base(base)
    ensures Climbing(num, 1, 1, base)
  {
  }

  lemma ClimbingStep(num: nat, divisor: nat, digitCount: nat, base: nat)
    requires Base(base) && Climbing(num, divisor, digitCount, base) && num / divisor >= base
    ensures divisor < divisor * base <= num && Climbing(num, divisor * base, digitCount + 1, base)
  {
    QuotientStep(num, divisor, base);
    AtLeastOnce(divisor, base - 1);
    Distribute(divisor, 1, base - 1);
  }

  lemma ClimbingEnds(num: nat, divisor: nat, digitCount: nat, base: nat)
    requires Base(base) && Climbing(num, divisor, digitCount, base) && num / divisor < base
    ensures digitCount == Count(num, base) && num < Power(base, digitCount)
  {
    hide Count, Power, Fixed;
    OneDigit(num / divisor, base);
    FixedStep(0, digitCount - 1, base, true);
    QuotientEnd(num, divisor, base);
  }

  lemma OneDigit(q: nat, base: nat)
    requires Base(base) && q < base
    ensures Count(q, base) == 1
  {
  }

  /** A 64-bit number has at most 20 digits. */
  lemma CountBound(num: Word, base: nat)
    requires Base(base)
    ensures Count(num, base) <= 20
  {
    TenDigits();
    PowerSum(10, 10, 10);
    PowerOfTen(base, 20);
    CountFits(num, 20, base);
  }

  lemma TenDigits()
    ensures Power(10, 10) == 10_000_000_000
  {
    assert Power(10, 2) == 10 * Power(10, 1) == 100;
    assert Power(10, 3) == 1000;
    assert Power(10, 4) == 10_000;
    assert Power(10, 5) == 100_000;
    PowerSum(10, 5, 5);
  }

  lemma {:induction false} PowerSum(base: nat, m: nat, n: nat)
    requires Base(base)
    ensures Power(base, m + n) == Power(base, m) * Power(base, n)
  {
    if m > 0 {
      PowerSum(base, m - 1, n);
      var p, q := Power(base, m - 1), Power(base, n);
      MulAssociates(base, p, q);
    }
  }

  lemma MulAssociates(a: nat, b: nat, c: nat)
    ensures a * (b * c) == (a * b) * c
  {
  }

  lemma {:induction false} PowerOfTen(base: nat, n: nat)
    requires Base(base)
    ensures Power(10, n) <= Power(base, n)
  {
    if n > 0 {
      PowerOfTen(base, n - 1);
    }
  }

  lemma {:induction false} CountFits(num: nat, k: nat, base: nat)
    requires Base(base) && k >= 1
    ensures Count(num, base) <= k <==> num < Power(base, k)
  {
    if k == 1 {
      assert Power(base, 1) == base * Power(base, 0);
    } else if num >= base {
      CountFits(num / base, k - 1, base);
      var p := Power(base, k - 1);
      assert num / base < p <==> num < base * p;
    } else {
      PowerGrows(base, 1, k);
    }
  }

  lemma QuotientStep(num: nat, divisor: nat, base: nat)
    requires Base(base) && divisor > 0 && num / divisor >= base
    ensures divisor * base <= num && num / (divisor * base) == num / divisor / base
  {
    var q, r := num / divisor, num % divisor;
    QuotientOf(num, divisor);
    var m, low := q / base, q % base;
    QuotientOf(q, base);
    assert m >= 1;
    Scaled(divisor, base, m, low, r);
    hide *;
    QuotientIs(num, divisor * base, m, divisor * low + r);
  }

  lemma QuotientOf(num: nat, d: nat)
    requires d > 0
    ensures num == d * (num / d) + num % d && 0 <= num % d < d
  {
  }

  lemma Distribute(d: nat, a: int, b: int)
    ensures d * (a + b) == d * a + d * b
  {
  }

  lemma AtLeastOnce(d: nat, k: nat)
    requires k >= 1
    ensures d * k >= d
  {
  }

  lemma Scaled(d: nat, base: nat, m: nat, low: nat, r: nat)
    requires low < base && r < d && m >= 1
    ensures d * (base * m + low) + r == (d * base) * m + (d * low + r)
    ensures d * low + r < d * base && d * base <= (d * base) * m
  {
    Distribute(d, base * m, low);
    assert d * (base * m) == (d * base) * m;
    Distribute(d, low, base - low);
    AtLeastOnce(d, base - low);
    AtLeastOnce(d * base, m);
  }

  lemma QuotientIs(num: nat, d: nat, q: nat, r: nat)
    requires d > 0 && num == d * q + r && r < d
    ensures num / d == q && num % d == r
  {
    QuotientOf(num, d);
    SameQuotient(d, q, r, num / d, num % d);
  }

  lemma SameQuotient(d: nat, q: nat, r: nat, p: nat, t: nat)
    requires r < d && t < d && d * q + r == d * p + t
    ensures q == p && r == t
  {
    if q > p {
      Distribute(d, p, q - p);
      AtLeastOnce(d, q - p);
    } else if q < p {
      Distribute(d, q, p - q);
      AtLeastOnce(d, p - q);
    }
  }

  lemma QuotientEnd(num: nat, divisor: nat, base: nat)
    requires divisor > 0 && num / divisor < base
    ensures num < base * divisor
  {
    var q := num / divisor;
    QuotientOf(num, divisor);
    Distribute(divisor, q, base - q);
    AtLeastOnce(divisor, base - q);
  }

  /** Prints a number; false for a base other than 10 and 16. */
  method NumToString(n: Word, options: Options) returns (ok: bool, s: Text)
    requires options.width <= NO_WIDTH
    ensures ok == Base(options.base)
    ensures ok ==> s == Lead(options) + Numeral(n, options)
    ensures ok && Fits(n, options) ==> Represents(s, n, options.isNegative, options)
  {
    hide Fixed, Power, Count, Lead, Shown, Represents;
    var base, width := options.base, options.width;
    s := [];
    if base != 10 && base != 16 {
      return false, s;
    }
    ok := true;
    s := PrintLead(options);
    var divisor, digitCount := FirstDivisor(n, base);
    var startIndex := 0;
    ghost var digits := Fixed(n, digitCount, base, options.upper);
    if width != NO_WIDTH && digitCount < width {
      s := Pad(s, width - digitCount);
      FixedPadded(n, digitCount, width - digitCount, base, options.upper);
      ShownAll(digits, true);
      ShownAll(Fixed(n, width, base, options.upper), true);
    } else if digitCount > width {
      startIndex := digitCount - width;
    }
    s := PrintDigits(n, divisor, digitCount - 1, startIndex, base, options.upper, s);
    if Fits(n, options) {
      LeadAndNumeral(n, options);
    }
  }

  method PrintLead(options: Options) returns (s: Text)
    ensures s == Lead(options)
  {
    s := [];
    if options.isNegative {
      if options.signMask % 2 == 1 {
        s := s + [0x2D];
      }
    } else {
      if options.signMask / 2 % 2 == 1 {
        s := s + [0x2B];
      }
    }
    if options.base == 16 {
      s := s + [0x30, 0x78];
    }
  }

  method Pad(start: Text, zeros: nat) returns (s: Text)
    ensures s == start + seq(zeros, i => 0x30)
  {
    s := start;
    var width := zeros;
    while width > 0
      invariant 0 <= width <= zeros && s == start + seq(zeros - width, i => 0x30)
    {
      s := s + [0x30];
      width := width - 1;
    }
  }

  lemma LeadingDigit(num: nat, divisor: nat, next: nat, base: nat) returns (digit: nat, diff: nat)
    requires divisor > 0 && next == base * divisor && num < next
    ensures digit == num / divisor && diff == num - digit * divisor && num == digit * divisor + diff
    ensures digit < base && diff < divisor
  {
    QuotientOf(num, divisor);
    digit, diff := num / divisor, num % divisor;
    if digit >= base {
      Distribute(divisor, base, digit - base);
    }
  }

  /** Dividing a power by its base. */
  lemma NextDivisor(left: nat, base: nat)
    requires Base(base) && left > 0
    ensures Power(base, left - 1) / base == if left == 1 then 0 else Power(base, left - 2)
  {
  }

  /** Before a digit: num is left, with as many digits as left says; skip of those that count
      are still to be cut off. */
  ghost predicate Printing(divisor: nat, num: nat, left: nat, base: nat, upper: bool, skip: nat, s: Text, goal: Text)
    requires Base(base)
  {
    && divisor == (if left == 0 then 0 else Power(base, left - 1)) && num < Power(base, left)
    && s + Shown(Fixed(num, left, base, upper), skip, true) == goal
  }

  /** After a digit: the divisor is still that of the digit, and zeros may follow. */
  ghost predicate Pending(divisor: nat, diff: nat, left: nat, base: nat, upper: bool, skip: nat, s: Text, goal: Text)
    requires Base(base) && left > 0
  {
    && divisor == Power(base, left - 1) && diff < divisor
    && s + Shown(Fixed(diff, left - 1, base, upper), skip, false) == goal
  }

  method AppendDigit(start: Text, digit: nat, base: nat, upper: bool) returns (s: Text)
    requires Base(base) && digit < base
    ensures s == start + [DigitChar(digit, upper)]
  {
    s := start;
    if digit <= 9 {
      s := s + [digit + 0x30];
    } else if base == 16 && digit <= 0xF {
      s := s + [if upper then digit - 0xA + 0x41 else digit - 0xA + 0x61];
    }
  }

  /** Appends the zeros that follow a digit and finds the divisor of the next one. */
  method SkipZeros(start: Text, first: nat, diff: nat, base: nat, ghost upper: bool, ghost left: nat, ghost skip: nat,
                   ghost goal: Text)
      returns (s: Text, divisor: nat, ghost left': nat)
    requires Base(base) && first > 0 && left > 0 && Pending(first, diff, left, base, upper, skip, start, goal)
    ensures Printing(divisor, diff, left', base, upper, skip, s, goal) && divisor < first
  {
    hide Power, Fixed, Printing, Pending, Shown;
    s, divisor, left' := start, first, left;
    if diff < divisor / base {
      while divisor / base > diff
        invariant 0 < divisor <= first && left' > 0 && Pending(divisor, diff, left', base, upper, skip, s, goal)
      {
        PendingZero(divisor, diff, left', base, upper, skip, s, goal);
        divisor := divisor / base;
        s, left' := s + [0x30], left' - 1;
      }
      PendingEnds(divisor, diff, left', base, upper, skip, s, goal);
      divisor := divisor / base;
    } else {
      PendingEnds(divisor, diff, left', base, upper, skip, s, goal);
      divisor := divisor / base;
    }
    left' := left' - 1;
  }

  function Remaining(startIndex: nat, i: nat): nat {
    if startIndex > i then startIndex - i else 0
  }

  /** Appends the digits of n, most significant first, save for those cut off; a digit followed
      by zeros is handled with them in one step. */
  method PrintDigits(n: Word, first: Word, ghost exponent: nat, startIndex: nat, base: nat, upper: bool, start: Text)
      returns (s: Text)
    requires Base(base) && first == Power(base, exponent) && n < Power(base, exponent + 1)
    ensures s == start + Shown(Fixed(n, exponent + 1, base, upper), startIndex, true)
  {
    hide Power, Fixed, DigitChar, Printing, Pending, Shown;
    s := start;
    var num: nat, divisor: nat, i: nat := n, first, 0;
    ghost var left: nat := exponent + 1;   // the digits still to be printed
    ghost var goal := start + Shown(Fixed(n, exponent + 1, base, upper), startIndex, true);
    PrintingStarts(n, exponent, base, upper, startIndex, start);
    while divisor > 0
      invariant Printing(divisor, num, left, base, upper, Remaining(startIndex, i), s, goal)
      decreases divisor
    {
      ghost var digit', diff' := PrintingDigit(divisor, num, left, base, upper, Remaining(startIndex, i), s, goal);
      var digit := num / divisor;
      if i >= startIndex {
        s := AppendDigit(s, digit, base, upper);
      }
      var diff := num - digit * divisor;
      s, divisor, left := SkipZeros(s, divisor, diff, base, upper, left, Remaining(startIndex, i + 1), goal);
      num, i := diff, i + 1;
    }
    PrintingDone(num, left, base, upper, Remaining(startIndex, i), s, goal);
  }

  lemma PrintingStarts(n: nat, exponent: nat, base: nat, upper: bool, skip: nat, start: Text)
    requires Base(base) && n < Power(base, exponent + 1)
    ensures Printing(Power(base, exponent), n, exponent + 1, base, upper, skip, start,
                     start + Shown(Fixed(n, exponent + 1, base, upper), skip, true))
  {
  }

  lemma PrintingDigit(divisor: nat, num: nat, left: nat, base: nat, upper: bool, skip: nat, s: Text, goal: Text)
      returns (digit: nat, diff: nat)
    requires Base(base) && divisor > 0 && Printing(divisor, num, left, base, upper, skip, s, goal)
    ensures left > 0 && digit == num / divisor && digit < base && diff == num - digit * divisor
    ensures Pending(divisor, diff, left, base, upper, if skip == 0 then 0 else skip - 1,
                    if skip == 0 then s + [DigitChar(digit, upper)] else s, goal)
  {
    hide Fixed, Power, DigitChar, Shown;
    FixedStep(0, left - 1, base, upper);
    digit, diff := LeadingDigit(num, Power(base, left - 1), Power(base, left), base);
    FixedFront(digit, diff, left - 1, base, upper);
    var c, more := DigitChar(digit, upper), Fixed(diff, left - 1, base, upper);
    ShownStep(c, more, skip, true);
    assert s + ([c] + Shown(more, 0, false)) == s + [c] + Shown(more, 0, false);
  }

  lemma ShownStep(c: Byte, more: Text, skip: nat, first: bool)
    ensures Shown([c] + more, skip, first)
         == if c == 0x30 && !first then [0x30] + Shown(more, skip, false)
            else if skip == 0 then [c] + Shown(more, 0, false) else Shown(more, skip - 1, false)
  {
    assert ([c] + more)[1..] == more;
  }

  lemma PendingZero(divisor: nat, diff: nat, left: nat, base: nat, upper: bool, skip: nat, s: Text, goal: Text)
    requires Base(base) && left > 0 && Pending(divisor, diff, left, base, upper, skip, s, goal) && divisor / base > diff
    ensures left > 1 && Pending(divisor / base, diff, left - 1, base, upper, skip, s + [0x30], goal)
  {
    NextDivisor(left, base);
    hide Fixed, Power, Shown;
    assert 0 * Power(base, left - 2) + diff == diff;
    FixedFront(0, diff, left - 2, base, upper);
    var more := Fixed(diff, left - 2, base, upper);
    ShownStep(0x30, more, skip, false);
    assert s + ([0x30] + Shown(more, skip, false)) == s + [0x30] + Shown(more, skip, false);
  }

  lemma PendingEnds(divisor: nat, diff: nat, left: nat, base: nat, upper: bool, skip: nat, s: Text, goal: Text)
    requires Base(base) && left > 0 && divisor / base <= diff
    requires Pending(divisor, diff, left, base, upper, skip, s, goal)
    ensures Printing(divisor / base, diff, left - 1, base, upper, skip, s, goal)
  {
    NextDivisor(left, base);
    if left > 1 {
      FixedStep(0, left - 2, base, upper);
      hide Fixed, Power, Shown, DigitChar;
      var digit, rest := LeadingDigit(diff, Power(base, left - 2), Power(base, left - 1), base);
      NonzeroDigit(diff, Power(base, left - 2), digit, rest, upper);
      FixedFront(digit, rest, left - 2, base, upper);
      ShownNonzero(DigitChar(digit, upper), Fixed(rest, left - 2, base, upper), skip);
    }
  }

  lemma ShownNonzero(c: Byte, more: Text, skip: nat)
    requires c != 0x30
    ensures Shown([c] + more, skip, false) == Shown([c] + more, skip, true)
  {
    hide Shown;
    ShownStep(c, more, skip, false);
    ShownStep(c, more, skip, true);
  }

  lemma NonzeroDigit(num: nat, divisor: nat, digit: nat, rest: nat, upper: bool)
    requires divisor <= num == digit * divisor + rest && rest < divisor && digit < 16
    ensures digit > 0 && DigitChar(digit, upper) != 0x30
  {
  }

  lemma PrintingDone(num: nat, left: nat, base: nat, upper: bool, skip: nat, s: Text, goal: Text)
    requires Base(base) && Printing(0, num, left, base, upper, skip, s, goal)
    ensures s == goal
  {
    assert left == 0;
  }

  /** A negative number prints as its magnitude with the sign flag set. Negating the smallest
      64-bit number overflows, and as a word leaves its magnitude. */
  method NumToStringSigned(n: int, options: Options) returns (ok: bool, s: Text)
    requires -0x8000_0000_0000_0000 <= n < 0x8000_0000_0000_0000 && options.width <= NO_WIDTH
    ensures ok == Base(options.base)
    ensures var magnitude, signed := if n < 0 then -n else n, if n < 0 then options.(isNegative := true) else options;
            ok ==> s == Lead(signed) + Numeral(magnitude, signed)
                   && (Fits(magnitude, signed) ==> Represents(s, magnitude, signed.isNegative, signed))
  {
    hide Fits, Lead, Numeral, Represents;
    if n < 0 {
      var negated := (-n) % WORD;
      ok, s := NumToString(negated, options.(isNegative := true));
    } else {
      ok, s := NumToString(n, options);
    }
  }

  // ----- cutting off digits

  lemma {:induction false} ShownAll(digits: Text, first: bool)
    ensures Shown(digits, 0, first) == digits
  {
    if digits != [] {
      ShownAll(digits[1..], false);
    }
  }

  function Zeros(s: Text): nat {
    if s == [] then 0 else (if s[0] == 0x30 then 1 else 0) + Zeros(s[1..])
  }

  lemma {:induction false} ZerosAfter(s: Text, k: nat)
    requires k <= |s|
    ensures Zeros(s[k..]) <= Zeros(s)
    ensures k > 0 && s[0] == 0x30 ==> Zeros(s[k..]) < Zeros(s)
  {
    if k > 0 {
      ZerosAfter(s[1..], k - 1);
      assert s[1..][k - 1..] == s[k..];
    } else {
      assert s[0..] == s;
    }
  }

  lemma {:induction false} ShownZeros(digits: Text, skip: nat)
    ensures Zeros(Shown(digits, skip, false)) == Zeros(digits)
  {
    if digits != [] {
      var more := digits[1..];
      ShownZeros(more, skip);
      ShownZeros(more, 0);
      ShownZeros(more, if skip == 0 then 0 else skip - 1);
      ZerosCons(digits[0], Shown(more, 0, false));
      ZerosCons(0x30, Shown(more, skip, false));
    }
  }

  lemma ZerosCons(c: Byte, s: Text)
    ensures Zeros([c] + s) == (if c == 0x30 then 1 else 0) + Zeros(s)
  {
    assert ([c] + s)[1..] == s;
  }

  /** Cutting off leaves the low digits exactly if no digit to be cut off is a zero, the first
      one aside. */
  lemma {:induction false} CutExactly(digits: Text, skip: nat, first: bool)
    requires skip <= |digits|
    ensures Shown(digits, skip, first) == digits[skip..] <==>
            forall i :: 0 <= i < skip ==> digits[i] != 0x30 || (first && i == 0)
    decreases |digits|
  {
    if skip == 0 {
      ShownAll(digits, first);
    } else if digits[0] == 0x30 && !first {
      ShownZeros(digits, skip);
      ZerosAfter(digits, skip);
    } else {
      var more := digits[1..];
      CutExactly(more, skip - 1, false);
      assert more[skip - 1..] == digits[skip..];
      assert forall i :: 1 <= i < skip ==> digits[i] == more[i - 1];
      assert forall i :: 0 <= i < skip - 1 ==> more[i] == digits[i + 1];
    }
  }

  /** What is printed for a number, exactly: all its digits, padded, for a width that is large
      enough; for a smaller one the low digits, as many as the width says, if and only if none
      of the digits cut off after the first one is a zero. */
  lemma NumeralMeaning(num: nat, opts: Options)
    requires Base(opts.base)
    ensures var n := Count(num, opts.base);
            if opts.width == NO_WIDTH || n <= opts.width
            then Numeral(num, opts) == Fixed(num, Width(num, opts), opts.base, opts.upper)
            else var digits, skip := Fixed(num, n, opts.base, opts.upper), n - opts.width;
                 Numeral(num, opts) == digits[skip..] <==> forall i :: 1 <= i < skip ==> digits[i] != 0x30
  {
    var n := Count(num, opts.base);
    var digits := Fixed(num, n, opts.base, opts.upper);
    hide Fixed, Shown, Count;
    if opts.width == NO_WIDTH || n <= opts.width {
      ShownAll(Fixed(num, Width(num, opts), opts.base, opts.upper), true);
    } else {
      CutExactly(digits, n - opts.width, true);
    }
  }

  function Nonzeros(s: Text): Text {
    if s == [] then [] else (if s[0] == 0x30 then [] else [s[0]]) + Nonzeros(s[1..])
  }

  lemma NonzerosCons(c: Byte, s: Text)
    ensures Nonzeros([c] + s) == (if c == 0x30 then [] else [c]) + Nonzeros(s)
  {
    assert ([c] + s)[1..] == s;
  }

  /** Of the digits after the first, cutting off keeps every zero, and loses the first ones of the
      others, as many as are to be cut. */
  lemma {:induction false} ShownNonzeros(digits: Text, skip: nat)
    ensures var all := Nonzeros(digits);
            Nonzeros(Shown(digits, skip, false)) == if skip <= |all| then all[skip..] else []
  {
    if digits != [] {
      var c, more := digits[0], digits[1..];
      ShownStep(c, more, skip, false);
      NonzerosCons(c, more);
      assert [c] + more == digits;
      hide Shown, Nonzeros;
      if c == 0x30 {
        ShownNonzeros(more, skip);
        NonzerosCons(c, Shown(more, skip, false));
      } else if skip == 0 {
        ShownNonzeros(more, 0);
        NonzerosCons(c, Shown(more, 0, false));
      } else {
        ShownNonzeros(more, skip - 1);
      }
    }
  }

  /** What is printed for a width that is too small: of the digits after the first, all zeros, and
      those others that come after as many as are still to be cut. */
  lemma CutKeepsZeros(num: nat, opts: Options)
    requires Base(opts.base) && !Fits(num, opts)
    ensures var digits, skip := Fixed(num, Count(num, opts.base), opts.base, opts.upper), Excess(num, opts);
            var all := Nonzeros(digits[1..]);
            && skip == Count(num, opts.base) - opts.width && Zeros(Numeral(num, opts)) == Zeros(digits[1..])
            && Nonzeros(Numeral(num, opts)) == if skip - 1 <= |all| then all[skip - 1..] else []
  {
    var digits, skip := Fixed(num, Count(num, opts.base), opts.base, opts.upper), Excess(num, opts);
    hide Shown, Fixed, Count, Zeros, Nonzeros;
    CutDigits(digits, skip);
  }

  lemma CutDigits(digits: Text, skip: nat)
    requires digits != [] && skip >= 1
    ensures var shown, all := Shown(digits, skip, true), Nonzeros(digits[1..]);
            Zeros(shown) == Zeros(digits[1..]) && Nonzeros(shown) == if skip - 1 <= |all| then all[skip - 1..] else []
  {
    hide Shown, Zeros, Nonzeros;
    assert digits == [digits[0]] + digits[1..];
    ShownStep(digits[0], digits[1..], skip, true);
    ShownZeros(digits[1..], skip - 1);
    ShownNonzeros(digits[1..], skip - 1);
  }

  // ----- what is printed

  /** The value of a digit character of either base. */
  function DigitValue(c: Byte): nat {
    if IsDigit(c) then c - 0x30
    else if 0x41 <= c <= 0x46 then c - 0x41 + 10
    else if 0x61 <= c <= 0x66 then c - 0x61 + 10
    else 0
  }

  function Value(s: Text, base: nat): nat {
    if s == [] then 0 else Value(s[..|s| - 1], base) * base + DigitValue(s[|s| - 1])
  }

  predicate IsDigitOf(c: Byte, base: nat, upper: bool) {
    IsDigit(c) || (base == 16 && if upper then 0x41 <= c <= 0x46 else 0x61 <= c <= 0x66)
  }

  /** The text is the number: it evaluates to it, in digits of the base, and without padding it
      has no leading zero, save for 0 itself. */
  lemma {:induction false} FixedMeaning(num: nat, n: nat, base: nat, upper: bool)
    requires Base(base) && num < Power(base, n)
    ensures var s := Fixed(num, n, base, upper);
            && Value(s, base) == num && (forall i :: 0 <= i < n ==> IsDigitOf(s[i], base, upper))
            && (n == Count(num, base) && num > 0 ==> s[0] != 0x30)
    decreases n
  {
    if n > 0 {
      var s, front := Fixed(num, n, base, upper), Fixed(num / base, n - 1, base, upper);
      var p := Power(base, n - 1);
      assert num / base < p;
      FixedMeaning(num / base, n - 1, base, upper);
      assert s[..n - 1] == front && s[n - 1] == DigitChar(num % base, upper);
      assert DigitValue(DigitChar(num % base, upper)) == num % base;
    }
  }

  lemma CountIsLength(num: nat, base: nat)
    requires Base(base)
    ensures num < Power(base, Count(num, base)) && (num > 0 ==> Power(base, Count(num, base) - 1) <= num)
  {
    CountFits(num, Count(num, base), base);
    if Count(num, base) > 1 {
      CountFits(num, Count(num, base) - 1, base);
    } else {
      assert Power(base, 0) == 1;
    }
  }

  /** Whether all digits of num are printed. */
  predicate Fits(num: nat, opts: Options)
    requires Base(opts.base)
  {
    opts.width == NO_WIDTH || Count(num, opts.base) <= opts.width
  }

  /** What a printed number looks like: '-' for a negative number and '+' for any other, each if
      its bit of the mask is set; "0x" in base 16; and digits that evaluate to the magnitude, as
      many as the width says or, without one that is larger, without a leading zero. */
  ghost predicate Represents(s: Text, magnitude: nat, negative: bool, opts: Options) {
    var k := if negative then opts.signMask % 2 else opts.signMask / 2 % 2;
    var p := if opts.base == 16 then k + 2 else k;
    && p < |s|
    && var lead, digits := s[..p], s[p..];
       && (k == 1 ==> lead[0] == if negative then 0x2D else 0x2B)
       && (opts.base == 16 ==> lead[k] == 0x30 && lead[k + 1] == 0x78)
       && (forall i :: 0 <= i < |digits| ==> IsDigitOf(digits[i], opts.base, opts.upper))
       && Value(digits, opts.base) == magnitude
       && (|digits| == opts.width || (digits[0] == 0x30 ==> magnitude == 0 && |digits| == 1))
       && (opts.width != NO_WIDTH ==> |digits| >= opts.width)
  }

  lemma LeadAndNumeral(num: nat, opts: Options)
    requires Base(opts.base) && Fits(num, opts)
    ensures Represents(Lead(opts) + Numeral(num, opts), num, opts.isNegative, opts)
  {
    hide Shown, Fixed, Power, Value, IsDigitOf, Lead, Count, Numeral, Represents, Fits;
    var lead, digits := Lead(opts), Numeral(num, opts);
    DigitsOfNumeral(num, opts);
    LeadIsSigns(opts);
    SignsAndDigits(lead, digits, num, opts.isNegative, opts);
  }

  lemma SignsAndDigits(lead: Text, digits: Text, num: nat, negative: bool, opts: Options)
    requires var k := if negative then opts.signMask % 2 else opts.signMask / 2 % 2;
             && |lead| == (if opts.base == 16 then k + 2 else k)
             && (k == 1 ==> lead[0] == if negative then 0x2D else 0x2B)
             && (opts.base == 16 ==> lead[k] == 0x30 && lead[k + 1] == 0x78)
    requires digits != [] && (forall i :: 0 <= i < |digits| ==> IsDigitOf(digits[i], opts.base, opts.upper))
    requires Value(digits, opts.base) == num
    requires |digits| == opts.width || (digits[0] == 0x30 ==> num == 0 && |digits| == 1)
    requires opts.width != NO_WIDTH ==> |digits| >= opts.width
    ensures Represents(lead + digits, num, negative, opts)
  {
    hide Value, IsDigitOf;
    assert (lead + digits)[..|lead|] == lead && (lead + digits)[|lead|..] == digits;
  }

  lemma LeadIsSigns(opts: Options)
    ensures var lead, k := Lead(opts), if opts.isNegative then opts.signMask % 2 else opts.signMask / 2 % 2;
            && |lead| == (if opts.base == 16 then k + 2 else k)
            && (k == 1 ==> lead[0] == if opts.isNegative then 0x2D else 0x2B)
            && (opts.base == 16 ==> lead[k] == 0x30 && lead[k + 1] == 0x78)
  {
  }

  lemma DigitsOfNumeral(num: nat, opts: Options)
    requires Base(opts.base) && Fits(num, opts)
    ensures var digits := Numeral(num, opts);
            && digits != [] && (forall i :: 0 <= i < |digits| ==> IsDigitOf(digits[i], opts.base, opts.upper))
            && Value(digits, opts.base) == num
            && (|digits| == opts.width || (digits[0] == 0x30 ==> num == 0 && |digits| == 1))
            && (opts.width != NO_WIDTH ==> |digits| >= opts.width)
  {
    hide Shown, Fixed, Count, Power, Value, IsDigitOf;
    NumeralMeaning(num, opts);
    hide Numeral;
    CountIsLength(num, opts.base);
    PowerGrows(opts.base, Count(num, opts.base), Width(num, opts));
    FixedMeaning(num, Width(num, opts), opts.base, opts.upper);
    ZeroIsOneDigit(num, opts.base);
  }

  lemma ZeroIsOneDigit(num: nat, base: nat)
    requires Base(base)
    ensures num == 0 ==> Count(num, base) == 1
  {
  }

  // ----- reading back

  lemma NaturalStep(front: Text, c: Byte)
    requires Value(front, 10) < Power(10, |front|) && IsDigit(c)
    ensures Perform(Collecting, Natural(Value(front, 10), |front|), c)
         == if |front| < MAX_DIGITS then Some(Natural(Value(front + [c], 10), |front| + 1)) else None
    ensures Value(front + [c], 10) < Power(10, |front| + 1)
  {
    hide Value, Power;
    ValuePush(front, c);
    if |front| < MAX_DIGITS {
      TenDigits();
      PowerGrows(10, |front| + 1, MAX_DIGITS);
      SmallModWord(Value(front + [c], 10));
    }
  }

  lemma SmallModWord(n: nat)
    requires n < WORD
    ensures n % WORD == n
  {
  }

  /** What the natural collector makes of digits. */
  lemma {:induction false} NaturalFed(front: Text, s: Text)
    requires forall c :: c in s ==> IsDigit(c)
    requires Value(front, 10) < Power(10, |front|) && |front| <= MAX_DIGITS
    ensures Feed(Collecting, Natural(Value(front, 10), |front|), s)
         == if |front + s| <= MAX_DIGITS then Some(Natural(Value(front + s, 10), |front + s|)) else None
    decreases |s|
  {
    if s == [] {
      assert front + s == front;
    } else {
      var more := front + [s[0]];
      assert front + s == more + s[1..];
      FeedStep(Collecting, Natural(Value(front, 10), |front|), s);
      NaturalStep(front, s[0]);
      hide Value, Power, Feed, Perform;
      if |front| < MAX_DIGITS {
        NaturalFed(more, s[1..]);
      }
    }
  }

  lemma ValuePush(front: Text, c: Byte)
    requires IsDigit(c)
    ensures Value(front + [c], 10) == Value(front, 10) * 10 + (c - 0x30)
    ensures Value(front, 10) < Power(10, |front|) ==> Value(front + [c], 10) < Power(10, |front| + 1)
  {
    var more := front + [c];
    assert more[..|more| - 1] == front;
  }

  /** Printing and reading a number is the identity, padded or not, exactly for texts of at most
      ten digits: for every number below 10^10. Reading needs a byte after the digits. */
  lemma PrintThenRead(num: nat, n: nat, tail: Text)
    requires num < Power(10, n) && n >= 1 && tail != [] && !IsDigit(tail[0])
    ensures NaturalRead([], false, Fixed(num, n, 10, true) + tail)
         == if n <= 10 then Some(Outcome(Natural(num, n), tail)) else None
  {
    hide Read, Feed, Fixed, Value, Power;
    var s, digits := Fixed(num, n, 10, true) + tail, Fixed(num, n, 10, true);
    FixedMeaning(num, n, 10, true);
    assert s[n] == tail[0] && forall i :: 0 <= i < n ==> s[i] == digits[i];
    assert Digits(s) == n;
    assert s[..n] == digits && s[n..] == tail;
    DigitRead(0, Collecting, Natural(0, 0), s);
    DigitsFed(digits);
  }

  /** Read up to a delimiter, with or without it. */
  lemma PrintThenReadUntil(num: nat, n: nat, until: Text, consume: bool, tail: Text)
    requires num < Power(10, n) && tail != [] && tail[0] in until && forall c :: c in until ==> !IsDigit(c)
    ensures NaturalRead(until, consume, Fixed(num, n, 10, true) + tail)
         == if n <= 10 then Some(Outcome(Natural(num, n), if consume then tail[1..] else tail)) else None
  {
    hide Read, Feed, Fixed, Value, Power;
    var digits := Fixed(num, n, 10, true);
    var s := digits + tail;
    FixedMeaning(num, n, 10, true);
    assert s[n] == tail[0] && forall i :: 0 <= i < n ==> s[i] == digits[i];
    assert FirstOf(until, s) == n;
    assert s[..n] == digits && s[n..] == tail;
    UntilRead(until, false, 0, Collecting, Natural(0, 0), s);
    DigitsFed(digits);
  }

  /** Read by the number of digits: nothing is needed after them. */
  lemma PrintThenReadSized(num: nat, n: nat, tail: Text)
    requires num < Power(10, n) && 1 <= n <= READ_LIMIT
    ensures NaturalOf(n, Fixed(num, n, 10, true) + tail)
         == if n <= 10 then Some(Outcome(Natural(num, n), tail)) else None
  {
    hide Read, Feed, Fixed, Value, Power;
    var digits := Fixed(num, n, 10, true);
    var s := digits + tail;
    FixedMeaning(num, n, 10, true);
    assert s[..n] == digits && s[n..] == tail;
    SizeRead(n, Collecting, Natural(0, 0), s);
    DigitsFed(digits);
  }

  lemma DigitsFed(s: Text)
    requires forall c :: c in s ==> IsDigit(c)
    ensures Feed(Collecting, Natural(0, 0), s) == if |s| <= MAX_DIGITS then Some(Natural(Value(s, 10), |s|)) else None
  {
    NaturalFed([], s);
    assert [] + s == s;
  }
}
