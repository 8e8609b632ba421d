/** Numeric character references: XMLUtil::GetCharacterRef. */
module CharRef {
  import opened XmlChars
  import Utf8

  const WORD: nat := 0x1_0000_0000    // unsigned int
  const LONG: nat := 0x1_0000_0000_0000_0000    // unsigned long

  type Base = b: nat | b == 10 || b == 16 witness 10

  // ----- Digits and their positional value -----

  predicate IsDigit(c: char, base: Base) {
    || '0' <= c <= '9'
    || (base == 16 && ('a' <= c <= 'f' || 'A' <= c <= 'F'))
  }

  function DigitValue(c: char, base: Base): (d: nat)
    requires IsDigit(c, base)
    ensures d < base
  {
    if c <= '9' then c as int - '0' as int
    else if c >= 'a' then c as int - 'a' as int + 10
    else c as int - 'A' as int + 10
  }

  /** The digits in order, in either case. */
  lemma DigitsInOrder(c: char, k: nat)
    requires k < 16
    ensures var lower, upper := "0123456789abcdef", "0123456789ABCDEF";
      && (IsDigit(c, 16) <==> c in lower || c in upper) && (IsDigit(c, 10) <==> c in lower[..10])
      && IsDigit(lower[k], 16) && DigitValue(lower[k], 16) == k
      && IsDigit(upper[k], 16) && DigitValue(upper[k], 16) == k
      && (k < 10 ==> IsDigit(lower[k], 10) && DigitValue(lower[k], 10) == k)
  {
    var lower, upper := "0123456789abcdef", "0123456789ABCDEF";
    if '0' <= c <= '9' {
      assert lower[c as int - '0' as int] == c;
      assert lower[..10][c as int - '0' as int] == c;
    } else if 'a' <= c <= 'f' {
      assert lower[c as int - 'a' as int + 10] == c;
    } else if 'A' <= c <= 'F' {
      assert upper[c as int - 'A' as int + 10] == c;
    }
  }

  predicate AllDigits(body: string, base: Base) {
    forall k :: 0 <= k < |body| ==> IsDigit(body[k], base)
  }

  function Power(base: nat, k: nat): nat {
    if k == 0 then 1 else base * Power(base, k - 1)
  }

  /** The number the digits of `body` denote in `base` (section 4.1 of XML 1.0). */
  function Positional(body: string, base: Base): nat
    requires AllDigits(body, base)
  {
    if body == [] then 0
    else Weighted(body[0], base, |body| - 1) + Positional(body[1..], base)
  }

  function Weighted(c: char, base: Base, k: nat): nat
    requires IsDigit(c, base)
  {
    Power(base, k) * DigitValue(c, base)
  }

  /** The number the source computes: every weight and every product is an
      unsigned int, the sum an unsigned long. */
  function Accumulated(body: string, base: Base): (r: nat)
    requires AllDigits(body, base)
    ensures r < LONG
  {
    if body == [] then 0
    else (Accumulated(body[1..], base) + Scaled(body[0], base, |body| - 1)) % LONG
  }

  function Scaled(c: char, base: Base, k: nat): (r: nat)
    requires IsDigit(c, base)
    ensures r < WORD
  {
    MulWord(Weight(base, k), DigitValue(c, base))
  }

  function Weight(base: Base, k: nat): nat {
    Power(base, k) % WORD
  }

  /** Multiplication of unsigned ints. */
  function MulWord(a: nat, b: nat): (r: nat)
    ensures r < WORD
  {
    a * b % WORD
  }

  lemma {:induction false} PowerPositive(base: Base, k: nat)
    ensures Power(base, k) >= 1
  {
    if k > 0 {
      PowerPositive(base, k - 1);
    }
  }

  lemma {:induction false} PowerMonotone(base: Base, j: nat, k: nat)
    requires j <= k
    ensures Power(base, j) <= Power(base, k)
  {
    if j < k {
      PowerMonotone(base, j, k - 1);
      PowerPositive(base, k - 1);
    }
  }

  lemma TopDigit(c: char, base: Base, k: nat, rest: nat)
    requires IsDigit(c, base) && rest < Power(base, k)
    ensures Weighted(c, base, k) + rest < Power(base, k + 1)
  {
    NextMultiple(Power(base, k), DigitValue(c, base), base);
  }

  lemma {:induction false} NextMultiple(p: nat, d: nat, base: nat)
    requires d < base
    ensures p * d + p <= base * p
  {
    if p > 0 {
      NextMultiple(p - 1, d, base);
    }
  }

  lemma {:induction false} PositionalBound(body: string, base: Base)
    requires AllDigits(body, base)
    ensures Positional(body, base) < Power(base, |body|)
  {
    if body != [] {
      PositionalBound(body[1..], base);
      TopDigit(body[0], base, |body| - 1, Positional(body[1..], base));
    }
  }

  lemma ScaledExact(c: char, base: Base, k: nat)
    requires IsDigit(c, base) && Power(base, k + 1) <= WORD
    ensures Scaled(c, base, k) == Weighted(c, base, k) < WORD
  {
    PowerPositive(base, k);
    TopDigit(c, base, k, 0);
    PowerMonotone(base, k, k + 1);
    hide Power;
    assert Weighted(c, base, k) < WORD;
    SmallWord(Weighted(c, base, k));
    if Power(base, k) < WORD {
      SmallWord(Power(base, k));
    }
  }

  lemma SmallWord(a: nat)
    requires a < WORD
    ensures a % WORD == a
  {
  }

  /** Nothing wraps as long as the number of that many digits fits a word: at
      most 8 hexadecimal or 9 decimal digits give the exact positional value. */
  lemma {:induction false} AccumulatedExact(body: string, base: Base)
    requires AllDigits(body, base)
    requires Power(base, |body|) <= WORD
    ensures Accumulated(body, base) == Positional(body, base)
  {
    if body != [] {
      var k, rest := |body| - 1, Positional(body[1..], base);
      PowerMonotone(base, k, |body|);
      AccumulatedExact(body[1..], base);
      PositionalBound(body[1..], base);
      TopDigit(body[0], base, k, rest);
      ScaledExact(body[0], base, k);
      NoWrap(rest, Weighted(body[0], base, k));
    }
  }

  lemma NoWrap(a: nat, b: nat)
    requires a + b < LONG
    ensures (a + b) % LONG == a + b
  {
  }

  lemma PowersThatFit()
    ensures Power(16, 8) == WORD && Power(10, 9) == 1_000_000_000 && Power(10, 10) == 10_000_000_000
  {
    assert Power(16, 4) == 0x10000;
    assert Power(16, 8) == 16 * (16 * (16 * (16 * Power(16, 4))));
    assert Power(10, 5) == 100000;
    assert Power(10, 9) == 10 * (10 * (10 * (10 * Power(10, 5))));
    assert Power(10, 10) == 10 * Power(10, 9);
  }

  lemma SixteenTimes(x: nat)
    requires x % WORD == 0
    ensures 16 * x % WORD == 0
  {
    assert 16 * x == (16 * (x / WORD)) * WORD;
  }

  lemma {:induction false} HighWeightsVanish(k: nat)
    requires k >= 8
    ensures Power(16, k) % WORD == 0
  {
    if k == 8 {
      PowersThatFit();
    } else {
      HighWeightsVanish(k - 1);
      SixteenTimes(Power(16, k - 1));
    }
  }

  /** However long the reference, a hexadecimal one keeps exactly the low 32 bits
      of its value. */
  lemma {:induction false} HexKeepsLowWord(body: string)
    requires AllDigits(body, 16)
    ensures Accumulated(body, 16) == Positional(body, 16) % WORD
  {
    if |body| <= 8 {
      ShortHex(body);
    } else {
      HexKeepsLowWord(body[1..]);
      LongHexStep(body);
    }
  }

  lemma ShortHex(body: string)
    requires AllDigits(body, 16) && |body| <= 8
    ensures Accumulated(body, 16) == Positional(body, 16) == Positional(body, 16) % WORD
  {
    hide Power, Accumulated, Positional;
    FewDigitsFit(body, 16);
    AccumulatedExact(body, 16);
    PositionalBound(body, 16);
  }

  lemma LongHexStep(body: string)
    requires |body| > 8 && AllDigits(body, 16)
    ensures Accumulated(body, 16) == Accumulated(body[1..], 16)
    ensures Positional(body, 16) % WORD == Positional(body[1..], 16) % WORD
  {
    HighWeightsVanish(|body| - 1);
    VanishingTerm(body[0], |body| - 1, Positional(body[1..], 16));
    NoWrap(Accumulated(body[1..], 16), 0);
  }

  lemma VanishingTerm(c: char, k: nat, rest: nat)
    requires IsDigit(c, 16) && Power(16, k) % WORD == 0
    ensures Scaled(c, 16, k) == 0
    ensures (Weighted(c, 16, k) + rest) % WORD == rest % WORD
  {
    var m, d := Power(16, k) / WORD, DigitValue(c, 16);
    assert Power(16, k) * d == WORD * (m * d);
    AddMultiple(rest, m * d);
  }

  lemma AddMultiple(a: nat, m: nat)
    ensures (WORD * m + a) % WORD == a % WORD
  {
  }

  // ----- When the value is exact -----

  /** The values below which the sum is exact: no digit from the tenth decimal
      place on fits a word, except small ones in the tenth. */
  function ExactBelow(base: Base): nat {
    if base == 16 then WORD else 5_000_000_000
  }

  /** The computed sum is the value the digits denote exactly if that value is
      small enough, however many digits spell it. */
  lemma ValueIsExact(body: string, base: Base)
    requires AllDigits(body, base)
    ensures Accumulated(body, base) == Positional(body, base) <==> Positional(body, base) < ExactBelow(base)
  {
    if base == 16 {
      HexKeepsLowWord(body);
    } else {
      DecimalIsExact(body);
    }
  }

  lemma {:induction false} DecimalIsExact(body: string)
    requires AllDigits(body, 10)
    ensures Accumulated(body, 10) <= Positional(body, 10)
    ensures Accumulated(body, 10) == Positional(body, 10) <==> Positional(body, 10) < 5_000_000_000
  {
    if body != [] {
      var k, rest := |body| - 1, body[1..];
      DecimalIsExact(rest);
      PositionalBound(rest, 10);
      ScaledDecimal(body[0], k);
      hide Power, Weighted, Scaled;
      TopPlace(body[0], k, Positional(rest, 10));
      SumIsExact(Accumulated(rest, 10), Positional(rest, 10), Scaled(body[0], 10, k), Weighted(body[0], 10, k));
    }
  }

  lemma ScaledDecimal(c: char, k: nat)
    requires IsDigit(c, 10)
    ensures Scaled(c, 10, k) <= Weighted(c, 10, k)
    ensures Scaled(c, 10, k) == Weighted(c, 10, k) <==> Weighted(c, 10, k) < 5_000_000_000
  {
    PowersThatFit();
    PlaceValue(c, k);
    hide Power;
    if k <= 8 {
      PowerMonotone(10, k + 1, 9);
      ScaledExact(c, 10, k);
    } else if DigitValue(c, 10) == 0 {
      NoDigit(Weight(10, k));
    }
  }

  /** What a digit of the tenth or a higher place is worth. */
  lemma PlaceValue(c: char, k: nat)
    requires IsDigit(c, 10)
    ensures k <= 8 ==> Weighted(c, 10, k) < 1_000_000_000
    ensures k == 9 ==> Weighted(c, 10, k) == 1_000_000_000 * DigitValue(c, 10)
    ensures k > 9 && DigitValue(c, 10) > 0 ==> Weighted(c, 10, k) >= 10_000_000_000
    ensures DigitValue(c, 10) == 0 ==> Weighted(c, 10, k) == 0
  {
    PowersThatFit();
    hide Power;
    if k <= 8 {
      PowerPositive(10, k);
      TopDigit(c, 10, k, 0);
      PowerMonotone(10, k + 1, 9);
    } else if k > 9 && DigitValue(c, 10) > 0 {
      PowerMonotone(10, 10, k);
      AtLeastOnce(Power(10, k), DigitValue(c, 10));
    }
  }

  lemma AtLeastOnce(a: nat, d: nat)
    requires d > 0
    ensures a * d >= a
  {
  }

  lemma NoDigit(a: nat)
    ensures MulWord(a, 0) == 0
  {
  }

  /** Below the limit the places do not carry over it together. */
  lemma TopPlace(c: char, k: nat, rest: nat)
    requires IsDigit(c, 10) && rest < Power(10, k)
    ensures Weighted(c, 10, k) < 5_000_000_000 && rest < 5_000_000_000 ==> Weighted(c, 10, k) + rest < 5_000_000_000
  {
    PowersThatFit();
    PlaceValue(c, k);
    hide Power;
    if k <= 8 {
      PowerMonotone(10, k, 9);
    }
  }

  lemma SumIsExact(a: nat, rest: nat, scaled: nat, weighted: nat)
    requires a <= rest && (a == rest <==> rest < 5_000_000_000)
    requires scaled <= weighted && (scaled == weighted <==> weighted < 5_000_000_000)
    requires weighted < 5_000_000_000 && rest < 5_000_000_000 ==> weighted + rest < 5_000_000_000
    ensures (a + scaled) % LONG <= weighted + rest
    ensures (a + scaled) % LONG == weighted + rest <==> weighted + rest < 5_000_000_000
  {
    var sum := a + scaled;
    assert sum % LONG <= sum;
    if weighted + rest < 5_000_000_000 {
      NoWrap(a, scaled);
    }
  }

  function Zeros(n: nat): (z: string)
    ensures |z| == n && AllDigits(z, 10) && forall k :: 0 <= k < n ==> z[k] == '0'
  {
    if n == 0 then "" else "0" + Zeros(n - 1)
  }

  lemma {:induction false} ZerosAreNothing(n: nat)
    ensures Accumulated(Zeros(n), 10) == Positional(Zeros(n), 10) == 0
  {
    if n > 0 {
      ZerosAreNothing(n - 1);
      assert Zeros(n)[0] == '0' && Zeros(n)[1..] == Zeros(n - 1);
      hide Power;
      NoDigit(Weight(10, n - 1));
    }
  }

  /** The least decimal number whose value is lost: `5000000000` is read as
      705032704. */
  lemma FiveBillionIsLost()
    ensures AllDigits("5000000000", 10)
    ensures Positional("5000000000", 10) == 5_000_000_000 && Accumulated("5000000000", 10) == 705_032_704
  {
    assert "5000000000"[1..] == Zeros(9);
    hide Positional, Accumulated;
    FiveAndZeros("5000000000");
  }

  lemma FiveAndZeros(body: string)
    requires AllDigits(body, 10) && |body| == 10 && body[0] == '5' && body[1..] == Zeros(9)
    ensures Positional(body, 10) == 5_000_000_000 && Accumulated(body, 10) == 705_032_704
  {
    hide Positional, Accumulated, Weighted, Scaled, Zeros;
    ZerosAreNothing(9);
    LeadingFive();
    TopDigitFirst(body, 10);
  }

  lemma LeadingFive()
    ensures IsDigit('5', 10)
    ensures Weighted('5', 10, 9) == 5_000_000_000 && Scaled('5', 10, 9) == 705_032_704
  {
    PowersThatFit();
    hide Power;
    assert Weight(10, 9) == 1_000_000_000;
  }

  lemma TopDigitFirst(body: string, base: Base)
    requires body != [] && AllDigits(body, base)
    ensures AllDigits(body[1..], base) && IsDigit(body[0], base)
    ensures Positional(body, base) == Weighted(body[0], base, |body| - 1) + Positional(body[1..], base)
    ensures Accumulated(body, base) == (Accumulated(body[1..], base) + Scaled(body[0], base, |body| - 1)) % LONG
  {
  }

  // ----- Locating the body of a reference -----

  /** strchr(&s[i], ';') */
  function FindSemicolon(s: string, i: nat): (r: Option<nat>)
    ensures r.Some? ==> i <= r.value < |s| && s[r.value] == ';'
    ensures r.Some? ==> forall k :: i <= k < r.value ==> s[k] != ';' && s[k] != NUL
    decreases |s| - i
  {
    if At(s, i) == NUL then None
    else if s[i] == ';' then Some(i)
    else FindSemicolon(s, i + 1)
  }

  /** The last position of `c` before `hi`. */
  function LastBefore(s: string, c: char, hi: nat): (k: nat)
    requires hi <= |s| && c in s[..hi]
    ensures k < hi && s[k] == c
    ensures forall j :: k < j < hi ==> s[j] != c
  {
    if s[hi - 1] == c then hi - 1
    else
      assert s[..hi] == s[..hi - 1] + [s[hi - 1]];
      LastBefore(s, c, hi - 1)
  }

  /** `NotARef` is the null result; otherwise the bytes produced and where
      reading goes on. */
  datatype RefResult = NotARef | Ref(bytes: string, next: nat)

  function Mark(base: Base): char {
    if base == 16 then 'x' else '#'
  }

  /** The reference whose digits lie between the nearest mark and the semicolon. */
  function RefBody(s: string, semicolon: nat, base: Base): (r: RefResult)
    requires semicolon < |s| && Mark(base) in s[..semicolon]
    ensures r.Ref? ==> r.next == semicolon + 1
  {
    var body := s[LastBefore(s, Mark(base), semicolon) + 1..semicolon];
    if AllDigits(body, base) then Ref(Utf8.Layout(Accumulated(body, base)), semicolon + 1) else NotARef
  }

  function CharacterRef(s: string, p: nat): (r: RefResult)
    requires At(s, p) == '&' && At(s, p + 1) == '#'
    ensures r.Ref? ==> p < r.next <= |s| && |r.bytes| <= r.next - p
  {
    if At(s, p + 2) == NUL then Ref([], p + 1)
    else
      var base: Base := if At(s, p + 2) == 'x' then 16 else 10;
      match FindSemicolon(s, if base == 16 then p + 3 else p + 2)
      case None => NotARef
      case Some(semicolon) =>
        assert s[if base == 16 then p + 2 else p + 1] == Mark(base);
        ShortOutput(s, p, semicolon, base);
        RefBody(s, semicolon, base)
  }

  /** The bytes produced never exceed the bytes consumed. */
  lemma ShortOutput(s: string, p: nat, semicolon: nat, base: Base)
    requires At(s, p) == '&' && semicolon < |s|
    requires p + (if base == 16 then 2 else 1) < semicolon
    requires s[p + (if base == 16 then 2 else 1)] == Mark(base)
    requires base == 10 ==> s[p + 1] == '#'
    ensures RefBody(s, semicolon, base).Ref? ==> |RefBody(s, semicolon, base).bytes| <= semicolon + 1 - p
  {
    var mark := LastBefore(s, Mark(base), semicolon);
    var body := s[mark + 1..semicolon];
    if body == [] {
      assert AllDigits(body, base) ==> Accumulated(body, base) == 0;
    }
  }

  /** A reference spelled in full, of few enough digits, is the character it names. */
  lemma ExactReference(s: string, p: nat, body: string, base: Base)
    requires StartsAt(s, p, Opening(base) + body + ";")
    requires body != [] && AllDigits(body, base)
    requires |body| <= (if base == 16 then 8 else 9)
    ensures At(s, p) == '&' && At(s, p + 1) == '#'
    ensures CharacterRef(s, p) == Ref(Utf8.Layout(Positional(body, base)), p + |Opening(base)| + |body| + 1)
  {
    ReferenceSpelledOut(s, p, body, base);
    FewDigitsFit(body, base);
    hide *;
    AccumulatedExact(body, base);
  }

  lemma ReferenceSpelledOut(s: string, p: nat, body: string, base: Base)
    requires StartsAt(s, p, Opening(base) + body + ";")
    requires body != [] && AllDigits(body, base)
    ensures At(s, p) == '&' && At(s, p + 1) == '#'
    ensures CharacterRef(s, p) == Ref(Utf8.Layout(Accumulated(body, base)), p + |Opening(base)| + |body| + 1)
  {
    OpeningSize(base);
    SpelledOut(s, p, body, base);
    FirstDigitIsNoMark(body, base);
    hide *;
    var first, semicolon := p + |Opening(base)|, p + |Opening(base)| + |body|;
    SemicolonAfterDigits(s, first, semicolon, base);
    BodyFound(s, first, semicolon, base);
    WithinText(s, p);
    WithinText(s, p + 1);
    WithinText(s, p + 2);
    ReferenceFound(s, p, semicolon, base);
  }

  lemma OpeningSize(base: Base)
    ensures |Opening(base)| == if base == 16 then 3 else 2
  {
  }

  lemma FirstDigitIsNoMark(body: string, base: Base)
    requires body != [] && AllDigits(body, base)
    ensures body[0] != 'x' && body[0] != NUL && 'x' != NUL
  {
  }

  lemma WithinText(s: string, i: nat)
    requires i < |s|
    ensures At(s, i) == s[i]
  {
  }

  lemma NoReference(s: string, p: nat, base: Base)
    requires At(s, p) == '&' && At(s, p + 1) == '#' && At(s, p + 2) != NUL
    requires At(s, p + 2) == 'x' <==> base == 16
    requires FindSemicolon(s, if base == 16 then p + 3 else p + 2) == None
    ensures CharacterRef(s, p) == NotARef
  {
  }

  lemma ReferenceFound(s: string, p: nat, semicolon: nat, base: Base)
    requires At(s, p) == '&' && At(s, p + 1) == '#' && At(s, p + 2) != NUL
    requires At(s, p + 2) == 'x' <==> base == 16
    requires FindSemicolon(s, if base == 16 then p + 3 else p + 2) == Some(semicolon)
    requires Mark(base) in s[..semicolon]
    ensures CharacterRef(s, p) == RefBody(s, semicolon, base)
  {
  }

  lemma BodyFound(s: string, first: nat, semicolon: nat, base: Base)
    requires 0 < first <= semicolon < |s|
    requires s[first - 1] == Mark(base)
    requires forall k :: first <= k < semicolon ==> IsDigit(s[k], base)
    ensures Mark(base) in s[..semicolon]
    ensures RefBody(s, semicolon, base) == Ref(Utf8.Layout(Accumulated(s[first..semicolon], base)), semicolon + 1)
  {
    assert s[..semicolon][first - 1] == Mark(base);
    assert LastBefore(s, Mark(base), semicolon) == first - 1;
  }

  lemma FewDigitsFit(body: string, base: Base)
    requires |body| <= (if base == 16 then 8 else 9)
    ensures Power(base, |body|) <= WORD
  {
    PowersThatFit();
    PowerMonotone(base, |body|, if base == 16 then 8 else 9);
  }

  function Opening(base: Base): string {
    if base == 16 then "&#x" else "&#"
  }

  lemma SpelledOut(s: string, p: nat, body: string, base: Base)
    requires StartsAt(s, p, Opening(base) + body + ";")
    requires body != [] && AllDigits(body, base)
    ensures var first, semicolon := p + |Opening(base)|, p + |Opening(base)| + |body|;
      && semicolon < |s| && s[semicolon] == ';' && s[first..semicolon] == body
      && (forall k :: first <= k < semicolon ==> IsDigit(s[k], base))
      && s[p] == '&' && s[p + 1] == '#' && s[first - 1] == Mark(base)
      && s[p + 2] == (if base == 16 then 'x' else body[0])
  {
    var first, semicolon := p + |Opening(base)|, p + |Opening(base)| + |body|;
    StartsAtConcat(s, p, Opening(base) + body, ";");
    StartsAtConcat(s, p, Opening(base), body);
    assert s[semicolon..semicolon + 1][0] == s[semicolon];
    forall k | first <= k < semicolon
      ensures s[k] == body[k - first]
    {
      assert s[first..semicolon][k - first] == s[k];
    }
    var mark := s[p..first];
    assert mark[0] == s[p] && mark[1] == s[p + 1] && mark[first - 1 - p] == s[first - 1];
  }

  lemma {:induction false} SemicolonAfterDigits(s: string, i: nat, semicolon: nat, base: Base)
    requires i <= semicolon < |s| && s[semicolon] == ';'
    requires forall k :: i <= k < semicolon ==> IsDigit(s[k], base)
    ensures FindSemicolon(s, i) == Some(semicolon)
    decreases semicolon - i
  {
    if i < semicolon {
      SemicolonAfterDigits(s, i + 1, semicolon, base);
    }
  }

  // ----- The scan itself -----

  /** Reads the digits before the semicolon from right to left, back to the
      nearest mark; fails at the first character that is neither. */
  method SumDigits(buffer: array<char>, start: nat, semicolon: nat, base: Base, ghost s: string, ghost lo: nat)
    returns (ok: bool, ucs: nat)
    requires lo < semicolon < |s| && start + |s| < buffer.Length && s[lo] == Mark(base)
    requires forall k :: lo <= k <= semicolon ==> buffer[start + k] == s[k]
    ensures Mark(base) in s[..semicolon]
    ensures var body := s[LastBefore(s, Mark(base), semicolon) + 1..semicolon];
      && ok == AllDigits(body, base)
      && (ok ==> ucs == Accumulated(body, base))
  {
    hide Power, Weight, MulWord;
    FirstWeight(base);
    assert s[..semicolon][lo] == Mark(base);
    ghost var last := LastBefore(s, Mark(base), semicolon);
    var q, mult := semicolon - 1, 1;
    ok, ucs := true, 0;
    while buffer[start + q] != Mark(base)
      invariant last <= q < semicolon && lo <= q
      invariant AllDigits(s[q + 1..semicolon], base)
      invariant mult == Weight(base, semicolon - 1 - q)
      invariant ucs == Accumulated(s[q + 1..semicolon], base)
      decreases q
    {
      var c := buffer[start + q];
      if !IsDigit(c, base) {
        ok := false;
        assert s[last + 1..semicolon][q - last - 1] == c;
        return;
      }
      ghost var digits := s[q..semicolon];
      assert digits[1..] == s[q + 1..semicolon] && digits[0] == c;
      var digitScaled := MulWord(mult, DigitValue(c, base));
      ucs := (ucs + digitScaled) % LONG;
      NextWeight(base, semicolon - 1 - q);
      mult := MulWord(mult, base);
      q := q - 1;
    }
    assert s[q] == Mark(base) && q == last;
  }

  lemma FirstWeight(base: Base)
    ensures Weight(base, 0) == 1
  {
  }

  lemma NextWeight(base: Base, k: nat)
    ensures MulWord(Weight(base, k), base) == Weight(base, k + 1)
  {
    var p, r := Power(base, k) / WORD, Power(base, k) % WORD;
    assert Power(base, k + 1) == base * (p * WORD + r) == WORD * (p * base) + r * base;
    AddMultiple(r * base, p * base);
  }

  /** strchr for the semicolon. */
  method Strchr(buffer: array<char>, start: nat, first: nat, ghost s: string) returns (found: bool, q: nat)
    requires first <= |s| && start + |s| < buffer.Length && buffer[start + |s|] == NUL
    requires forall k :: first <= k < |s| ==> buffer[start + k] == s[k]
    ensures FindSemicolon(s, first) == if found then Some(q) else None
  {
    q := first;
    while buffer[start + q] != ';'
      invariant first <= q <= |s|
      invariant FindSemicolon(s, first) == FindSemicolon(s, q)
      decreases |s| - q
    {
      if buffer[start + q] == NUL {
        return false, q;
      }
      q := q + 1;
    }
    found := true;
  }

  /** Returns -1 for null; otherwise the bytes are in `value[..length]`. */
  method GetCharacterRef(buffer: array<char>, start: nat, p: nat, value: array<char>, ghost s: string)
    returns (adjusted: int, length: nat)
    requires p < |s| && start + |s| < buffer.Length && buffer[start + |s|] == NUL
    requires forall k :: p <= k < |s| ==> buffer[start + k] == s[k]
    requires At(s, p) == '&' && At(s, p + 1) == '#'
    requires value != buffer && value.Length >= 4
    modifies value
    ensures length <= 4
    ensures match CharacterRef(s, p)
      case NotARef => adjusted == -1
      case Ref(bytes, next) => adjusted == next && value[..length] == bytes
  {
    assert buffer[start + p + 2] == At(s, p + 2);
    if buffer[start + p + 2] == NUL {
      return p + 1, 0;
    }
    hide *;
    var base: Base := if buffer[start + p + 2] == 'x' then 16 else 10;
    var first := if base == 16 then p + 3 else p + 2;
    LocateMark(s, p, base, first);
    var found, q := Strchr(buffer, start, first, s);
    if found {
      var ok, ucs := SumDigits(buffer, start, q, base, s, first - 1);
      ReferenceFound(s, p, q, base);
      BodyResult(s, q, base);
      adjusted, length := -1, 0;
      if ok {
        length := Utf8.ConvertUTF32ToUTF8(ucs, value);
        adjusted := q + 1;
      }
    } else {
      NoReference(s, p, base);
      adjusted, length := -1, 0;
    }
  }

  lemma LocateMark(s: string, p: nat, base: Base, first: nat)
    requires At(s, p) == '&' && At(s, p + 1) == '#' && At(s, p + 2) != NUL
    requires At(s, p + 2) == 'x' <==> base == 16
    requires first == if base == 16 then p + 3 else p + 2
    ensures first <= |s| && s[first - 1] == Mark(base)
  {
  }

  lemma BodyResult(s: string, semicolon: nat, base: Base)
    requires semicolon < |s| && Mark(base) in s[..semicolon]
    ensures var body := s[LastBefore(s, Mark(base), semicolon) + 1..semicolon];
      RefBody(s, semicolon, base) ==
      if AllDigits(body, base) then Ref(Utf8.Layout(Accumulated(body, base)), semicolon + 1) else NotARef
  {
  }
}
