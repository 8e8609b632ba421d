/** What the text between two pointers is meant to stand for by XML 1.0, and
    exactly when StrPair::GetStr meets it. */
module Intended {
  import opened XmlChars
  import opened CharRef
  import opened Decoding
  import Utf8

  // ----- Character references as section 4.1 spells them -----

  function DigitsEnd(s: string, i: nat, base: Base): (j: nat)
    requires i <= |s|
    ensures i <= j <= |s| && AllDigits(s[i..j], base)
    ensures j < |s| ==> !IsDigit(s[j], base)
    decreases |s| - i
  {
    if i < |s| && IsDigit(s[i], base) then
      var j := DigitsEnd(s, i + 1, base);
      assert s[i..j] == [s[i]] + s[i + 1..j];
      j
    else i
  }

  /** `&#` digits `;` or `&#x` hexadecimal digits `;`, of a value that has a
      layout in bytes. Nothing else is a reference. */
  function MeantRef(s: string, p: nat): (r: RefResult)
    requires At(s, p) == '&' && At(s, p + 1) == '#'
    ensures r.Ref? ==> p < r.next <= |s|
  {
    var base: Base := if At(s, p + 2) == 'x' then 16 else 10;
    var first := if base == 16 then p + 3 else p + 2;
    var end := DigitsEnd(s, first, base);
    if first < end && At(s, end) == ';' && Positional(s[first..end], base) < 0x200000 then
      Ref(Utf8.Layout(Positional(s[first..end], base)), end + 1)
    else NotARef
  }

  // ----- The decoder XML means -----

  datatype Step = Step(text: string, next: nat)

  /** Line ends by section 2.11, references by section 4.1, the predefined
      entities by section 4.6; any other character stands for itself. */
  function MeantStep(s: string, f: Flags, p: nat): (r: Step)
    requires p < |s|
    ensures p < r.next <= |s|
  {
    if f.newlines && s[p] == CR then Step([LF], if At(s, p + 1) == LF then p + 2 else p + 1)
    else if f.entities && s[p] == '&' && At(s, p + 1) == '#' && MeantRef(s, p).Ref? then
      Step(MeantRef(s, p).bytes, MeantRef(s, p).next)
    else if f.entities && s[p] == '&' && At(s, p + 1) != '#' && FindEntity(s, p, 0).Some? then
      Step([FindEntity(s, p, 0).value.value], p + |FindEntity(s, p, 0).value.pattern| + 2)
    else Step([s[p]], p + 1)
  }

  function Meant(s: string, f: Flags, p: nat): string
    requires p <= |s|
    decreases |s| - p
  {
    if p == |s| then [] else MeantStep(s, f, p).text + Meant(s, f, MeantStep(s, f, p).next)
  }

  // ----- One reference -----

  /** The code reads the reference at `p` as meant: something follows the mark;
      between the mark and the semicolon there is something, no later mark is
      followed by digits only, and if there are digits only their value has a
      layout. */
  predicate Unmistaken(s: string, p: nat)
    requires At(s, p) == '&' && At(s, p + 1) == '#'
  {
    var base: Base := if At(s, p + 2) == 'x' then 16 else 10;
    var first := if base == 16 then p + 3 else p + 2;
    At(s, p + 2) != NUL &&
    match FindSemicolon(s, first)
    case None => true
    case Some(semicolon) =>
      && first < semicolon
      && (forall k :: first <= k < semicolon && s[k] == Mark(base) ==> !AllDigits(s[k + 1..semicolon], base))
      && (AllDigits(s[first..semicolon], base) ==> Positional(s[first..semicolon], base) < 0x200000)
  }

  lemma {:induction false} DigitsEndAt(s: string, i: nat, j: nat, base: Base)
    requires i <= j <= |s| && AllDigits(s[i..j], base) && (j < |s| ==> !IsDigit(s[j], base))
    ensures DigitsEnd(s, i, base) == j
    decreases j - i
  {
    if i < j {
      assert s[i..j][0] == s[i] && s[i..j][1..] == s[i + 1..j];
      DigitsEndAt(s, i + 1, j, base);
    }
  }

  lemma NoDigitSemicolon(base: Base)
    ensures !IsDigit(';', base) && !IsDigit(NUL, base) && !IsDigit('x', base) && !IsDigit('#', base)
  {
  }

  /** With digits up to the first semicolon the reference is meant; otherwise not. */
  lemma MeantBySemicolon(s: string, p: nat, base: Base, first: nat)
    requires At(s, p) == '&' && At(s, p + 1) == '#'
    requires base == (if At(s, p + 2) == 'x' then 16 else 10) && first == if base == 16 then p + 3 else p + 2
    ensures FindSemicolon(s, first) == None ==> MeantRef(s, p) == NotARef
    ensures FindSemicolon(s, first).Some? ==>
      var semicolon := FindSemicolon(s, first).value;
      var body := s[first..semicolon];
      MeantRef(s, p) ==
      if body != [] && AllDigits(body, base) && Positional(body, base) < 0x200000
      then Ref(Utf8.Layout(Positional(body, base)), semicolon + 1) else NotARef
  {
    var end := DigitsEnd(s, first, base);
    NoDigitSemicolon(base);
    if At(s, end) == ';' {
      forall k | first <= k < end
        ensures IsDigit(s[k], base)
      {
        assert s[first..end][k - first] == s[k];
      }
      SemicolonAfterDigits(s, first, end, base);
    }
    if FindSemicolon(s, first).Some? {
      var semicolon := FindSemicolon(s, first).value;
      if AllDigits(s[first..semicolon], base) {
        DigitsEndAt(s, first, semicolon, base);
      }
    }
  }

  /** How the code reads the same text: back to the last mark. */
  lemma ReadBySemicolon(s: string, p: nat, base: Base, first: nat)
    requires At(s, p) == '&' && At(s, p + 1) == '#' && At(s, p + 2) != NUL
    requires base == (if At(s, p + 2) == 'x' then 16 else 10) && first == if base == 16 then p + 3 else p + 2
    ensures FindSemicolon(s, first) == None ==> CharacterRef(s, p) == NotARef
    ensures FindSemicolon(s, first).Some? ==>
      var semicolon := FindSemicolon(s, first).value;
      first <= semicolon < |s| && Mark(base) in s[..semicolon]
      && first <= LastBefore(s, Mark(base), semicolon) + 1
      && CharacterRef(s, p) == RefBody(s, semicolon, base)
  {
    LocateMark(s, p, base, first);
    if FindSemicolon(s, first).Some? {
      var semicolon := FindSemicolon(s, first).value;
      assert s[..semicolon][first - 1] == Mark(base);
    }
  }

  /** The code takes a reference for what it is meant to be if and only if the
      text is unmistaken. */
  lemma ReadAsMeant(s: string, p: nat)
    requires At(s, p) == '&' && At(s, p + 1) == '#'
    ensures CharacterRef(s, p) == MeantRef(s, p) <==> Unmistaken(s, p)
    ensures CharacterRef(s, p) != MeantRef(s, p) ==> CharacterRef(s, p).Ref? && MeantRef(s, p) == NotARef
  {
    var base: Base := if At(s, p + 2) == 'x' then 16 else 10;
    var first := if base == 16 then p + 3 else p + 2;
    if At(s, p + 2) == NUL {
      NothingFollows(s, p);
    } else {
      MeantBySemicolon(s, p, base, first);
      ReadBySemicolon(s, p, base, first);
      if FindSemicolon(s, first).Some? {
        BodyAsMeant(s, first, FindSemicolon(s, first).value, base);
      }
    }
  }

  lemma NothingFollows(s: string, p: nat)
    requires At(s, p) == '&' && At(s, p + 1) == '#' && At(s, p + 2) == NUL
    ensures CharacterRef(s, p) == Ref([], p + 1) && MeantRef(s, p) == NotARef
  {
  }

  lemma BodyAsMeant(s: string, first: nat, semicolon: nat, base: Base)
    requires 0 < first <= semicolon < |s| && Mark(base) in s[..semicolon]
    requires first <= LastBefore(s, Mark(base), semicolon) + 1
    ensures var body := s[first..semicolon];
      var meant := if body != [] && AllDigits(body, base) && Positional(body, base) < 0x200000
        then Ref(Utf8.Layout(Positional(body, base)), semicolon + 1) else NotARef;
      && (RefBody(s, semicolon, base) == meant <==>
           && first < semicolon
           && (forall k :: first <= k < semicolon && s[k] == Mark(base) ==> !AllDigits(s[k + 1..semicolon], base))
           && (AllDigits(body, base) ==> Positional(body, base) < 0x200000))
      && (RefBody(s, semicolon, base) != meant ==> RefBody(s, semicolon, base).Ref? && meant == NotARef)
  {
    var mark, body := LastBefore(s, Mark(base), semicolon), s[first..semicolon];
    NoDigitSemicolon(base);
    if mark + 1 == first {
      forall k | first <= k < semicolon
        ensures s[k] != Mark(base)
      {
      }
      if AllDigits(body, base) {
        ValueIsExact(body, base);
      }
    } else {
      assert body[mark - first] == Mark(base);
      assert !AllDigits(body, base);
      if !AllDigits(s[mark + 1..semicolon], base) {
        LastMarkDecides(s, first, semicolon, base, mark);
      }
    }
  }

  lemma LastMarkDecides(s: string, first: nat, semicolon: nat, base: Base, mark: nat)
    requires first <= mark < semicolon < |s| && !AllDigits(s[mark + 1..semicolon], base)
    requires s[mark] == Mark(base) && forall j :: mark < j < semicolon ==> s[j] != Mark(base)
    ensures forall k :: first <= k < semicolon && s[k] == Mark(base) ==> !AllDigits(s[k + 1..semicolon], base)
  {
    NoDigitSemicolon(base);
    forall k | first <= k < semicolon && s[k] == Mark(base)
      ensures !AllDigits(s[k + 1..semicolon], base)
    {
      if k < mark {
        assert s[k + 1..semicolon][mark - k - 1] == Mark(base);
      }
    }
  }

  // ----- A mistaken reference loses text -----

  lemma {:induction false} ThroughDigits(s: string, f: Flags, i: nat, semicolon: nat, base: Base)
    requires i <= semicolon < |s| && s[semicolon] == ';' && AllDigits(s[i..semicolon], base)
    ensures |Meant(s, f, i)| == semicolon - i + 1 + |Meant(s, f, semicolon + 1)|
    decreases semicolon - i
  {
    if i < semicolon {
      assert s[i..semicolon][0] == s[i] && s[i..semicolon][1..] == s[i + 1..semicolon];
      assert MeantStep(s, f, i) == Step([s[i]], i + 1);
      ThroughDigits(s, f, i + 1, semicolon, base);
    } else {
      assert MeantStep(s, f, i) == Step([s[i]], i + 1);
    }
  }

  lemma ShortLayout(body: string, base: Base)
    requires AllDigits(body, base)
    ensures |Utf8.Layout(Accumulated(body, base))| <= |body| + 1
  {
    if |body| <= 2 {
      FewDigitsFit(body, base);
      AccumulatedExact(body, base);
      PositionalBound(body, base);
      assert Power(base, 2) == base * (base * 1);
      PowerMonotone(base, |body|, 2);
      if |body| <= 1 {
        PowerMonotone(base, |body|, 1);
      }
    }
  }

  lemma {:induction false} SemicolonFrom(s: string, i: nat, semicolon: nat)
    requires i <= semicolon < |s| && s[semicolon] == ';'
    requires forall k :: i <= k < semicolon ==> s[k] != ';' && s[k] != NUL
    ensures FindSemicolon(s, i) == Some(semicolon)
    decreases semicolon - i
  {
    if i < semicolon {
      SemicolonFrom(s, i + 1, semicolon);
    }
  }

  /** A reference meant at `i` whose text holds the last mark before its semicolon
      starts with that mark, and yields the bytes of the digits behind it. */
  lemma InnerReference(s: string, i: nat, mark: nat, semicolon: nat, base: Base)
    requires i <= mark < semicolon < |s| && s[semicolon] == ';' && s[mark] == Mark(base)
    requires forall k :: i <= k < semicolon ==> s[k] != ';' && s[k] != NUL
    requires AllDigits(s[mark + 1..semicolon], base)
    requires At(s, i) == '&' && At(s, i + 1) == '#' && MeantRef(s, i).Ref?
    ensures MeantRef(s, i) == Ref(Utf8.Layout(Accumulated(s[mark + 1..semicolon], base)), semicolon + 1)
  {
    var inner: Base := if At(s, i + 2) == 'x' then 16 else 10;
    var first := if inner == 16 then i + 3 else i + 2;
    SemicolonFrom(s, first, semicolon);
    MeantBySemicolon(s, i, inner, first);
    var body := s[first..semicolon];
    NoDigitSemicolon(inner);
    forall k | first <= k < semicolon
      ensures s[k] != Mark(base)
    {
      assert body[k - first] == s[k];
    }
    assert mark + 1 < semicolon ==> s[mark + 1..semicolon][0] == s[mark + 1];
    ValueIsExact(body, inner);
  }

  lemma PatternsHaveNoMark(e: Entity)
    requires e in ENTITIES
    ensures 'x' !in e.pattern && '#' !in e.pattern
  {
  }

  /** No entity name contains a mark. */
  lemma NamesHaveNoMark(s: string, i: nat, mark: nat, semicolon: nat)
    requires i < mark < semicolon < |s| && s[semicolon] == ';' && (s[mark] == 'x' || s[mark] == '#')
    requires forall k :: i <= k < semicolon ==> s[k] != ';' && s[k] != NUL
    ensures FindEntity(s, i, 0) == None
  {
    forall e | e in ENTITIES
      ensures !Names(s, i, e)
    {
      if i + 1 + |e.pattern| > mark {
        PatternsHaveNoMark(e);
        OtherName(s, i, e, mark - i - 1);
      }
    }
    assert FindEntity(s, i, 5) == None;
    assert FindEntity(s, i, 4) == None;
    assert FindEntity(s, i, 3) == None;
    assert FindEntity(s, i, 2) == None;
    assert FindEntity(s, i, 1) == None;
  }

  /** Up to the mark every step but a reference leaves at least a character and
      stops at the mark. */
  lemma StepBefore(s: string, f: Flags, i: nat, mark: nat, semicolon: nat)
    requires i <= mark < semicolon < |s| && s[semicolon] == ';' && (s[mark] == 'x' || s[mark] == '#')
    requires forall k :: i <= k < semicolon ==> s[k] != ';' && s[k] != NUL
    requires !(f.entities && At(s, i) == '&' && At(s, i + 1) == '#' && MeantRef(s, i).Ref?)
    ensures var step := MeantStep(s, f, i);
      |step.text| == 1 && i < step.next <= mark + 1 && |Meant(s, f, i)| == 1 + |Meant(s, f, step.next)|
  {
    hide MeantRef, FindEntity;
    if i < mark {
      NamesHaveNoMark(s, i, mark, semicolon);
    }
  }

  lemma ReferenceStep(s: string, f: Flags, i: nat)
    requires f.entities && At(s, i) == '&' && At(s, i + 1) == '#' && MeantRef(s, i).Ref?
    ensures Meant(s, f, i) == MeantRef(s, i).bytes + Meant(s, f, MeantRef(s, i).next)
  {
    hide MeantRef;
  }

  lemma {:induction false} UpToMark(s: string, f: Flags, i: nat, mark: nat, semicolon: nat, base: Base)
    requires i <= mark + 1 <= semicolon < |s| && s[semicolon] == ';' && s[mark] == Mark(base)
    requires forall k :: i <= k < semicolon ==> s[k] != ';' && s[k] != NUL
    requires AllDigits(s[mark + 1..semicolon], base)
    ensures |Meant(s, f, i)| >= |Utf8.Layout(Accumulated(s[mark + 1..semicolon], base))| + |Meant(s, f, semicolon + 1)|
    decreases semicolon - i
  {
    hide AllDigits, Accumulated, Utf8.Layout, Meant, MeantStep, MeantRef, At;
    if i == mark + 1 {
      ThroughDigits(s, f, i, semicolon, base);
      ShortLayout(s[mark + 1..semicolon], base);
    } else if f.entities && At(s, i) == '&' && At(s, i + 1) == '#' && MeantRef(s, i).Ref? {
      InnerReference(s, i, mark, semicolon, base);
      ReferenceStep(s, f, i);
    } else {
      StepBefore(s, f, i, mark, semicolon);
      UpToMark(s, f, MeantStep(s, f, i).next, mark, semicolon, base);
    }
  }

  lemma StandsForItself(s: string, f: Flags, p: nat)
    requires At(s, p) == '&' && At(s, p + 1) == '#' && MeantRef(s, p) == NotARef
    ensures p + 2 <= |s| && |Meant(s, f, p)| == 1 + |Meant(s, f, p + 1)| == 2 + |Meant(s, f, p + 2)|
  {
    assert MeantStep(s, f, p) == Step("&", p + 1);
    assert MeantStep(s, f, p + 1) == Step("#", p + 2);
  }

  lemma BytesFit(s: string, f: Flags, p: nat, base: Base, first: nat)
    requires At(s, p) == '&' && At(s, p + 1) == '#' && At(s, p + 2) != NUL
    requires base == (if At(s, p + 2) == 'x' then 16 else 10) && first == if base == 16 then p + 3 else p + 2
    requires CharacterRef(s, p).Ref?
    ensures |CharacterRef(s, p).bytes| + |Meant(s, f, CharacterRef(s, p).next)| <= |Meant(s, f, p + 2)|
  {
    hide *;
    ReadBySemicolon(s, p, base, first);
    FirstMark(s, p, base, first);
    var semicolon := FindSemicolon(s, first).value;
    var mark := LastBefore(s, Mark(base), semicolon);
    BodyResult(s, semicolon, base);
    UpToMark(s, f, p + 2, mark, semicolon, base);
  }

  /** Nothing up to the digits is a semicolon. */
  lemma FirstMark(s: string, p: nat, base: Base, first: nat)
    requires At(s, p) == '&' && At(s, p + 1) == '#' && At(s, p + 2) != NUL
    requires base == (if At(s, p + 2) == 'x' then 16 else 10) && first == if base == 16 then p + 3 else p + 2
    ensures FindSemicolon(s, first).Some? ==>
      forall k :: p + 2 <= k < FindSemicolon(s, first).value ==> s[k] != ';' && s[k] != NUL
  {
    hide FindSemicolon;
  }

  /** What a mistaken reference yields is shorter than what its text means. */
  lemma MistakenIsShorter(s: string, f: Flags, p: nat)
    requires f.entities && At(s, p) == '&' && At(s, p + 1) == '#' && !Unmistaken(s, p)
    ensures CharacterRef(s, p).Ref?
    ensures |CharacterRef(s, p).bytes| + |Meant(s, f, CharacterRef(s, p).next)| < |Meant(s, f, p)|
  {
    hide *;
    ReadAsMeant(s, p);
    StandsForItself(s, f, p);
    if At(s, p + 2) == NUL {
      NothingFollows(s, p);
    } else {
      var base: Base := if At(s, p + 2) == 'x' then 16 else 10;
      BytesFit(s, f, p, base, if base == 16 then p + 3 else p + 2);
    }
  }

  // ----- Line ends -----

  predicate EndsLine(c: char) {
    c == CR || c == LF
  }

  predicate Turns(a: char, b: char) {
    EndsLine(a) && EndsLine(b) && a != b
  }

  /** The end of the alternating run of CR and LF that goes on at `p`. */
  function RunEnd(s: string, p: nat): (e: nat)
    requires p < |s|
    ensures p < e <= |s| && (e < |s| ==> !Turns(s[e - 1], s[e]))
    ensures forall k :: p < k < e ==> Turns(s[k - 1], s[k])
    decreases |s| - p
  {
    if p + 1 < |s| && Turns(s[p], s[p + 1]) then RunEnd(s, p + 1) else p + 1
  }

  function Lfs(n: nat): (r: string)
    ensures |r| == n
  {
    if n == 0 then "" else [LF] + Lfs(n - 1)
  }

  predicate Goes(s: string, p: nat)
    requires p < |s|
  {
    p + 1 < |s| && Turns(s[p], s[p + 1])
  }

  lemma RunStep(s: string, p: nat)
    requires p < |s| && EndsLine(s[p])
    ensures !Goes(s, p) ==> RunEnd(s, p) == p + 1
    ensures Goes(s, p) ==>
      p + 1 < |s| && EndsLine(s[p + 1]) && RunEnd(s, p) == RunEnd(s, p + 1) && (s[p] == LF <==> s[p + 1] == CR)
  {
  }

  lemma ReadStep(s: string, f: Flags, p: nat)
    requires p < |s| && f.newlines && EndsLine(s[p])
    ensures Goes(s, p) ==> p + 2 <= |s| && Decoded(s, f, p) == [LF] + Decoded(s, f, p + 2)
    ensures !Goes(s, p) ==> Decoded(s, f, p) == [LF] + Decoded(s, f, p + 1)
  {
  }

  lemma MeantLineEnd(s: string, f: Flags, p: nat)
    requires p < |s| && f.newlines && EndsLine(s[p])
    ensures s[p] == CR && Goes(s, p) ==> p + 2 <= |s| && Meant(s, f, p) == [LF] + Meant(s, f, p + 2)
    ensures s[p] == LF || !Goes(s, p) ==> Meant(s, f, p) == [LF] + Meant(s, f, p + 1)
  {
    hide MeantRef, FindEntity;
  }

  lemma OneLf(rest: string)
    ensures Lfs(1) + rest == [LF] + rest
  {
    assert Lfs(1) == [LF] + Lfs(0);
  }

  lemma OneMoreLf(n: nat, rest: string)
    requires n > 0
    ensures [LF] + (Lfs(n - 1) + rest) == Lfs(n) + rest
  {
  }

  /** The LFs meant by an alternating run of `n` characters from `c` on. */
  function MeantLfs(c: char, n: nat): nat {
    if c == CR then (n + 1) / 2 else 1 + n / 2
  }

  lemma MeantLfsStep(n: nat)
    requires n > 0
    ensures MeantLfs(CR, 1) == MeantLfs(LF, 1) == 1 == MeantLfs(CR, 2)
    ensures MeantLfs(LF, n) == 1 + MeantLfs(CR, n - 1)
    ensures n > 2 ==> MeantLfs(CR, n) == 1 + MeantLfs(CR, n - 2)
  {
  }

  /** The code makes one LF of every two characters of a run. */
  lemma {:induction false} ReadRun(s: string, f: Flags, p: nat)
    requires p < |s| && f.newlines && EndsLine(s[p])
    ensures Decoded(s, f, p) == Lfs(MeantLfs(CR, RunEnd(s, p) - p)) + Decoded(s, f, RunEnd(s, p))
    decreases |s| - p
  {
    hide *;
    var e := RunEnd(s, p);
    RunStep(s, p);
    ReadStep(s, f, p);
    OneLf(Decoded(s, f, e));
    MeantLfsStep(e - p);
    if Goes(s, p) {
      RunStep(s, p + 1);
      if Goes(s, p + 1) {
        ReadRun(s, f, p + 2);
        OneMoreLf(MeantLfs(CR, e - p), Decoded(s, f, e));
      }
    }
  }

  /** Section 2.11 makes one LF of CR LF and of every other CR or LF. */
  lemma {:induction false} MeantRun(s: string, f: Flags, p: nat)
    requires p < |s| && f.newlines && EndsLine(s[p])
    ensures Meant(s, f, p) == Lfs(MeantLfs(s[p], RunEnd(s, p) - p)) + Meant(s, f, RunEnd(s, p))
    decreases |s| - p
  {
    hide *;
    var e := RunEnd(s, p);
    RunStep(s, p);
    MeantLineEnd(s, f, p);
    EitherLineEnd(s[p]);
    OneLf(Meant(s, f, e));
    MeantLfsStep(e - p);
    if Goes(s, p) {
      RunStep(s, p + 1);
      if s[p] == LF {
        MeantRun(s, f, p + 1);
        OneMoreLf(MeantLfs(LF, e - p), Meant(s, f, e));
      } else if Goes(s, p + 1) {
        MeantRun(s, f, p + 2);
        EitherLineEnd(s[p + 1]);
        EitherLineEnd(s[p + 2]);
        OneMoreLf(MeantLfs(CR, e - p), Meant(s, f, e));
      }
    }
  }

  lemma EitherLineEnd(c: char)
    ensures EndsLine(c) <==> c == CR || c == LF
    ensures CR != LF
  {
  }

  lemma {:induction false} RunParity(s: string, p: nat)
    requires p < |s| && EndsLine(s[p])
    ensures EndsLine(s[RunEnd(s, p) - 1])
    ensures s[RunEnd(s, p) - 1] == s[p] <==> (RunEnd(s, p) - p) % 2 == 1
    decreases |s| - p
  {
    if RunEnd(s, p) > p + 1 {
      RunParity(s, p + 1);
    }
  }

  /** On a run the code falls short of the meaning by one LF if it starts with LF
      and ends with CR, and not at all otherwise. */
  lemma RunsCompare(s: string, p: nat)
    requires p < |s| && EndsLine(s[p])
    ensures var e := RunEnd(s, p);
      MeantLfs(s[p], e - p) == MeantLfs(CR, e - p) + (if s[p] == LF && s[e - 1] == CR then 1 else 0)
  {
    RunParity(s, p);
  }

  // ----- The whole text -----

  /** Nothing the code reads from `p` on is mistaken. */
  predicate Faithful(s: string, f: Flags, p: nat)
    requires p <= |s|
    decreases |s| - p
  {
    p == |s| ||
    if f.newlines && EndsLine(s[p]) then
      !(s[p] == LF && s[RunEnd(s, p) - 1] == CR) && Faithful(s, f, RunEnd(s, p))
    else
      (f.entities && s[p] == '&' && At(s, p + 1) == '#' ==> Unmistaken(s, p)) && Faithful(s, f, NextPiece(s, f, p).next)
  }

  /** Elsewhere the steps of the code and of the meaning are the same. */
  lemma SameStep(s: string, f: Flags, p: nat)
    requires p < |s| && !(f.newlines && EndsLine(s[p]))
    requires f.entities && s[p] == '&' && At(s, p + 1) == '#' ==> Unmistaken(s, p)
    ensures NextPiece(s, f, p).next == MeantStep(s, f, p).next
    ensures MeantStep(s, f, p).text == if NextPiece(s, f, p).Copied? then NextPiece(s, f, p).text else "&"
  {
    hide CharacterRef, MeantRef, FindEntity, Unmistaken;
    if f.entities && s[p] == '&' && At(s, p + 1) == '#' {
      ReadAsMeant(s, p);
    }
  }

  lemma DecodedStep(s: string, f: Flags, p: nat)
    requires p < |s|
    ensures Decoded(s, f, p)
         == (if NextPiece(s, f, p).Copied? then NextPiece(s, f, p).text else "&") + Decoded(s, f, NextPiece(s, f, p).next)
    ensures Meant(s, f, p) == MeantStep(s, f, p).text + Meant(s, f, MeantStep(s, f, p).next)
  {
    hide NextPiece, MeantStep;
  }

  lemma MistakenStep(s: string, f: Flags, p: nat)
    requires p < |s| && !(f.newlines && EndsLine(s[p]))
    requires f.entities && s[p] == '&' && At(s, p + 1) == '#' && !Unmistaken(s, p)
    ensures NextPiece(s, f, p).Copied?
    ensures |NextPiece(s, f, p).text| + |Meant(s, f, NextPiece(s, f, p).next)| < |Meant(s, f, p)|
  {
    MistakenIsShorter(s, f, p);
    hide CharacterRef, MeantRef, Unmistaken, Meant;
  }

  /** Reading left to right never yields more than the meaning, and yields the
      meaning exactly when it is faithful; every mistake costs a character. */
  lemma {:induction false} ReadingCompares(s: string, f: Flags, p: nat)
    requires p <= |s|
    ensures Faithful(s, f, p) ==> Decoded(s, f, p) == Meant(s, f, p)
    ensures !Faithful(s, f, p) ==> |Decoded(s, f, p)| < |Meant(s, f, p)|
    decreases |s| - p
  {
    hide NextPiece, MeantStep, Unmistaken, Decoded, Meant, EndsLine, RunEnd, MeantLfs;
    if p == |s| {
      NothingMeant(s, f);
    } else if f.newlines && EndsLine(s[p]) {
      ReadRun(s, f, p);
      MeantRun(s, f, p);
      RunsCompare(s, p);
      ReadingCompares(s, f, RunEnd(s, p));
    } else {
      DecodedStep(s, f, p);
      ReadingCompares(s, f, NextPiece(s, f, p).next);
      if f.entities && s[p] == '&' && At(s, p + 1) == '#' && !Unmistaken(s, p) {
        MistakenStep(s, f, p);
      } else {
        SameStep(s, f, p);
      }
    }
  }

  lemma NothingMeant(s: string, f: Flags)
    ensures Decoded(s, f, |s|) == Meant(s, f, |s|) == ""
  {
  }

  // ----- The condition, read off the text -----

  /** No reference in the text is mistaken. */
  predicate ReferencesMeant(s: string, f: Flags) {
    f.entities ==> forall p :: 0 <= p < |s| && s[p] == '&' && At(s, p + 1) == '#' ==> Unmistaken(s, p)
  }

  /** `s[i..j]` alternates between CR and LF and cannot be made longer. */
  predicate MaximalRun(s: string, i: nat, j: nat) {
    && i < j <= |s| && EndsLine(s[i])
    && (forall k :: i < k < j ==> Turns(s[k - 1], s[k]))
    && (i > 0 ==> !Turns(s[i - 1], s[i])) && (j < |s| ==> !Turns(s[j - 1], s[j]))
  }

  /** No maximal run starts with LF and ends with CR. */
  ghost predicate LineEndsMeant(s: string, f: Flags) {
    f.newlines ==> forall i: nat, j: nat :: MaximalRun(s, i, j) ==> !(s[i] == LF && s[j - 1] == CR)
  }

  predicate Fresh(s: string, p: nat)
    requires p <= |s|
  {
    0 < p < |s| ==> !Turns(s[p - 1], s[p])
  }

  lemma RunIsMaximal(s: string, p: nat)
    requires p < |s| && EndsLine(s[p]) && Fresh(s, p)
    ensures MaximalRun(s, p, RunEnd(s, p)) && Fresh(s, RunEnd(s, p))
  {
  }

  lemma {:induction false} OneRunFrom(s: string, i: nat, j: nat)
    requires i < j <= |s| && EndsLine(s[i]) && (forall k :: i < k < j ==> Turns(s[k - 1], s[k]))
    requires j < |s| ==> !Turns(s[j - 1], s[j])
    ensures RunEnd(s, i) == j
    decreases j - i
  {
    if i + 1 < j {
      OneRunFrom(s, i + 1, j);
    }
  }

  /** What a step other than a line end reads, behind its first character, holds
      no ampersand and no line end. */
  lemma StepIsClean(s: string, f: Flags, p: nat)
    requires p < |s| && !(f.newlines && EndsLine(s[p]))
    requires f.entities && s[p] == '&' && At(s, p + 1) == '#' ==> Unmistaken(s, p)
    ensures forall k :: p < k < NextPiece(s, f, p).next ==> s[k] != '&' && !EndsLine(s[k])
  {
    hide Unmistaken, CharacterRef;
    if f.entities && s[p] == '&' {
      if At(s, p + 1) == '#' {
        ReadAsMeant(s, p);
        if MeantRef(s, p).Ref? {
          ReferenceIsClean(s, p);
        }
      } else if FindEntity(s, p, 0).Some? {
        EntityIsClean(s, p, FindEntity(s, p, 0).value);
      }
    }
  }

  lemma ReferenceIsClean(s: string, p: nat)
    requires At(s, p) == '&' && At(s, p + 1) == '#' && MeantRef(s, p).Ref?
    ensures forall k :: p < k < MeantRef(s, p).next ==> s[k] != '&' && !EndsLine(s[k])
  {
    var base: Base := if At(s, p + 2) == 'x' then 16 else 10;
    var first := if base == 16 then p + 3 else p + 2;
    var end := DigitsEnd(s, first, base);
    forall k | first <= k < end
      ensures s[k] != '&' && !EndsLine(s[k])
    {
      assert s[first..end][k - first] == s[k];
    }
  }

  lemma PatternsAreClean(e: Entity)
    requires e in ENTITIES
    ensures forall k :: 0 <= k < |e.pattern| ==> e.pattern[k] != '&' && !EndsLine(e.pattern[k])
  {
  }

  lemma EntityIsClean(s: string, p: nat, e: Entity)
    requires e in ENTITIES && Names(s, p, e)
    ensures forall k :: p < k < p + |e.pattern| + 2 ==> s[k] != '&' && !EndsLine(s[k])
  {
    PatternsAreClean(e);
    forall k | p < k < p + 1 + |e.pattern|
      ensures s[k] == e.pattern[k - p - 1]
    {
      assert s[p + 1..p + 1 + |e.pattern|][k - p - 1] == s[k];
    }
  }

  lemma {:induction false} MeantIsFaithful(s: string, f: Flags, p: nat)
    requires p <= |s| && ReferencesMeant(s, f) && LineEndsMeant(s, f) && Fresh(s, p)
    ensures Faithful(s, f, p)
    decreases |s| - p
  {
    hide NextPiece, Unmistaken;
    if p < |s| {
      if f.newlines && EndsLine(s[p]) {
        RunIsMaximal(s, p);
        MeantIsFaithful(s, f, RunEnd(s, p));
      } else {
        var next := NextPiece(s, f, p).next;
        StepIsClean(s, f, p);
        assert next < |s| && next - 1 > p ==> !EndsLine(s[next - 1]);
        if f.newlines {
          MeantIsFaithful(s, f, next);
        } else {
          WithoutNewlines(s, f, next);
        }
      }
    }
  }

  /** Without newline normalisation only the references matter. */
  lemma {:induction false} WithoutNewlines(s: string, f: Flags, p: nat)
    requires p <= |s| && ReferencesMeant(s, f) && !f.newlines
    ensures Faithful(s, f, p)
    decreases |s| - p
  {
    hide NextPiece, Unmistaken;
    if p < |s| {
      WithoutNewlines(s, f, NextPiece(s, f, p).next);
    }
  }

  lemma {:induction false} FaithfulReferences(s: string, f: Flags, p: nat, k: nat)
    requires p <= k < |s| && Faithful(s, f, p) && f.entities && s[k] == '&' && At(s, k + 1) == '#'
    ensures Unmistaken(s, k)
    decreases |s| - p
  {
    hide NextPiece, Unmistaken;
    if f.newlines && EndsLine(s[p]) {
      RunHoldsLineEnds(s, p);
      FaithfulReferences(s, f, RunEnd(s, p), k);
    } else if p < k {
      StepIsClean(s, f, p);
      FaithfulReferences(s, f, NextPiece(s, f, p).next, k);
    }
  }

  lemma {:induction false} RunHoldsLineEnds(s: string, p: nat)
    requires p < |s| && EndsLine(s[p])
    ensures forall k :: p <= k < RunEnd(s, p) ==> EndsLine(s[k])
    decreases |s| - p
  {
    if RunEnd(s, p) > p + 1 {
      RunHoldsLineEnds(s, p + 1);
    }
  }

  lemma {:induction false} FaithfulRuns(s: string, f: Flags, p: nat, i: nat, j: nat)
    requires p <= i < |s| && Faithful(s, f, p) && Fresh(s, p) && f.newlines && MaximalRun(s, i, j)
    ensures !(s[i] == LF && s[j - 1] == CR)
    decreases |s| - p
  {
    hide NextPiece, Unmistaken;
    if EndsLine(s[p]) {
      RunIsMaximal(s, p);
      if p == i {
        OneRunFrom(s, i, j);
      } else {
        FaithfulRuns(s, f, RunEnd(s, p), i, j);
      }
    } else {
      StepIsClean(s, f, p);
      var next := NextPiece(s, f, p).next;
      assert next < |s| && next - 1 > p ==> !EndsLine(s[next - 1]);
      FaithfulRuns(s, f, next, i, j);
    }
  }

  lemma FaithfulIsMeant(s: string, f: Flags)
    ensures Faithful(s, f, 0) <==> ReferencesMeant(s, f) && LineEndsMeant(s, f)
  {
    hide Unmistaken;
    if ReferencesMeant(s, f) && LineEndsMeant(s, f) {
      MeantIsFaithful(s, f, 0);
    }
    if Faithful(s, f, 0) {
      forall p | f.entities && 0 <= p < |s| && s[p] == '&' && At(s, p + 1) == '#'
        ensures Unmistaken(s, p)
      {
        FaithfulReferences(s, f, 0, p);
      }
      forall i: nat, j: nat | f.newlines && MaximalRun(s, i, j)
        ensures !(s[i] == LF && s[j - 1] == CR)
      {
        FaithfulRuns(s, f, 0, i, j);
      }
    }
  }

  // ----- Main results -----

  /** The loop of GetStr leaves what the text means if and only if no reference is
      mistaken, no maximal run of line ends goes from LF to CR, and every
      unrecognised ampersand finds an ampersand under the write pointer. */
  lemma MeetsMeaning(s: string, f: Flags)
    ensures InPlace(s, f, 0, []) == Meant(s, f, 0)
       <==> ReferencesMeant(s, f) && LineEndsMeant(s, f) && AmpersandsStay(s, f, 0, 0)
    ensures |InPlace(s, f, 0, [])| <= |Meant(s, f, 0)|
  {
    hide *;
    InPlaceDecodes(s, f, 0, []);
    assert [] + Decoded(s, f, 0) == Decoded(s, f, 0);
    ReadingCompares(s, f, 0);
    FaithfulIsMeant(s, f);
  }

  /** The string GetStr returns is what the text means if and only if the same holds
      and the meaning holds no NUL, which would end the C string. */
  lemma ReturnsMeaning(s: string, f: Flags)
    requires !f.collapse
    ensures Value(s, f) == Meant(s, f, 0)
       <==> NoNul(Meant(s, f, 0)) && ReferencesMeant(s, f) && LineEndsMeant(s, f) && AmpersandsStay(s, f, 0, 0)
  {
    var text := InPlace(s, f, 0, []);
    hide ReferencesMeant, LineEndsMeant, AmpersandsStay, Meant, InPlace;
    MeetsMeaning(s, f);
    if NoNul(text) {
      CStringUnique(text, |text|);
    }
  }

  /** Every ampersand starts a character reference or a predefined entity. */
  predicate WellFormed(s: string) {
    forall p :: 0 <= p < |s| && s[p] == '&' ==>
      if At(s, p + 1) == '#' then MeantRef(s, p).Ref? else FindEntity(s, p, 0).Some?
  }

  /** In well-formed text only the line ends can be mistaken. */
  lemma WellFormedIsMeant(s: string, f: Flags)
    requires WellFormed(s)
    ensures InPlace(s, f, 0, []) == Meant(s, f, 0) <==> LineEndsMeant(s, f)
  {
    hide MeantRef, CharacterRef, Unmistaken, FindEntity;
    forall p | 0 <= p < |s| && s[p] == '&' && At(s, p + 1) == '#'
      ensures Unmistaken(s, p) && CharacterRef(s, p) == MeantRef(s, p)
    {
      ReadAsMeant(s, p);
    }
    RecognisedStay(s, f, 0, 0);
    hide *;
    MeetsMeaning(s, f);
    WellFormedReferences(s, f);
  }

  lemma WellFormedReferences(s: string, f: Flags)
    requires WellFormed(s)
    ensures ReferencesMeant(s, f)
  {
    hide MeantRef, CharacterRef, Unmistaken, FindEntity;
    forall p | 0 <= p < |s| && s[p] == '&' && At(s, p + 1) == '#'
      ensures Unmistaken(s, p)
    {
      ReadAsMeant(s, p);
    }
  }

  // ----- Line ends alone -----

  /** Section 2.11: CR LF, and any CR that no LF follows, become one LF. */
  function Normalised(s: string): string {
    if s == [] then []
    else if s[0] == CR && |s| > 1 && s[1] == LF then [LF] + Normalised(s[2..])
    else [if s[0] == CR then LF else s[0]] + Normalised(s[1..])
  }

  lemma {:induction false} MeantIsNormalised(s: string, p: nat)
    requires p <= |s|
    ensures Meant(s, NEWLINES_ONLY, p) == Normalised(s[p..])
    decreases |s| - p
  {
    if p < |s| {
      var next := MeantStep(s, NEWLINES_ONLY, p).next;
      MeantIsNormalised(s, next);
      assert s[p..][next - p..] == s[next..];
    }
  }

  /** Text read for its line ends only comes out as section 2.11 has it if and only
      if no maximal run of line ends goes from LF to CR. */
  lemma NormalisesLineEnds(s: string)
    ensures InPlace(s, NEWLINES_ONLY, 0, []) == Normalised(s)
       <==> forall i: nat, j: nat :: MaximalRun(s, i, j) ==> !(s[i] == LF && s[j - 1] == CR)
  {
    hide MaximalRun, EndsLine, Normalised, Meant, InPlace, FindEntity, MeantRef;
    MeetsMeaning(s, NEWLINES_ONLY);
    MeantIsNormalised(s, 0);
    assert s[0..] == s;
    NothingSkipped(s, 0, 0);
  }

  lemma {:induction false} NothingSkipped(s: string, p: nat, q: nat)
    requires q <= p <= |s|
    ensures AmpersandsStay(s, NEWLINES_ONLY, p, q)
    decreases |s| - p
  {
    if p < |s| {
      var piece := NextPiece(s, NEWLINES_ONLY, p);
      NothingSkipped(s, piece.next, q + |piece.text|);
    }
  }

  // ----- Inputs on which the code and the meaning part -----

  lemma {:induction false} MeansItself(s: string, f: Flags, p: nat)
    requires p <= |s| && forall k :: p <= k < |s| ==> MeantStep(s, f, k) == Step([s[k]], k + 1)
    ensures Meant(s, f, p) == s[p..]
    decreases |s| - p
  {
    hide MeantStep;
    if p < |s| {
      MeansItself(s, f, p + 1);
    }
  }

  /** A mark at the end of the text loses its ampersand. */
  lemma LoneMarkIsLost()
    ensures InPlace("a&#", ATTRIBUTE_VALUE, 0, []) == "a#"
    ensures Meant("a&#", ATTRIBUTE_VALUE, 0) == "a&#"
  {
    var s, f := "a&#", ATTRIBUTE_VALUE;
    NothingFollows(s, 1);
    MeansItself(s, f, 0);
    assert s[0..] == s;
    assert NextPiece(s, f, 0) == Copied("a", 1);
    assert NextPiece(s, f, 1) == Copied("", 2);
    assert NextPiece(s, f, 2) == Copied("#", 3);
    hide NextPiece, Meant;
    assert InPlace(s, f, 0, []) == InPlace(s, f, 1, [] + "a");
    assert InPlace(s, f, 1, "a") == InPlace(s, f, 2, "a" + "");
    assert InPlace(s, f, 2, "a") == InPlace(s, f, 3, "a" + "#");
  }

  /** Digits behind the last of several marks are taken for a reference. */
  lemma LaterMarkIsTaken()
    ensures InPlace("&#12#3;", ATTRIBUTE_VALUE, 0, []) == [3 as char]
    ensures Meant("&#12#3;", ATTRIBUTE_VALUE, 0) == "&#12#3;"
  {
    hide *;
    LaterMarkRead();
    LaterMarkMeant();
  }

  lemma LaterMarkMeant()
    ensures Meant("&#12#3;", ATTRIBUTE_VALUE, 0) == "&#12#3;"
  {
    var s, f := "&#12#3;", ATTRIBUTE_VALUE;
    DigitsEndAt(s, 2, 4, 10);
    assert MeantRef(s, 0) == NotARef;
    hide MeantRef, FindEntity;
    MeansItself(s, f, 0);
    assert s[0..] == s;
  }

  lemma LaterMarkRead()
    ensures InPlace("&#12#3;", ATTRIBUTE_VALUE, 0, []) == [3 as char]
  {
    var s, f := "&#12#3;", ATTRIBUTE_VALUE;
    assert CharacterRef(s, 0) == Ref([3 as char], 7) by {
      SemicolonFrom(s, 2, 6);
      assert LastBefore(s, '#', 6) == 4;
      assert s[5..6] == "3";
      FewDigitsFit("3", 10);
      AccumulatedExact("3", 10);
      assert Positional("3", 10) == Weighted('3', 10, 0) + Positional("", 10);
    }
    hide CharacterRef;
    assert NextPiece(s, f, 0) == Copied([3 as char], 7);
    hide NextPiece;
    assert InPlace(s, f, 0, []) == InPlace(s, f, 7, [] + [3 as char]);
  }

  /** A reference without digits yields a NUL, which ends the string. */
  lemma EmptyReferenceIsNul()
    ensures InPlace("&#;", ATTRIBUTE_VALUE, 0, []) == [NUL]
    ensures Value("&#;", ATTRIBUTE_VALUE) == ""
    ensures Meant("&#;", ATTRIBUTE_VALUE, 0) == "&#;"
  {
    var s, f := "&#;", ATTRIBUTE_VALUE;
    MeansItself(s, f, 0);
    assert s[0..] == s;
  }

  /** LF CR is two line ends, of which the code makes one. */
  lemma LineFeedReturn()
    ensures InPlace([LF, CR], NEWLINES_ONLY, 0, []) == [LF]
    ensures Normalised([LF, CR]) == [LF, LF]
  {
    assert [LF, CR][1..] == [CR] && [CR][1..] == [];
    assert Normalised([CR]) == [LF] + Normalised([]) == [LF];
    assert Normalised([LF, CR]) == [LF] + Normalised([CR]);
  }

  /** Of LF CR LF it makes the two that are meant. */
  lemma LineFeedReturnLineFeed()
    ensures InPlace([LF, CR, LF], NEWLINES_ONLY, 0, []) == Normalised([LF, CR, LF]) == [LF, LF]
  {
    var s := [LF, CR, LF];
    assert s[1..] == [CR, LF] && [CR, LF][2..] == [];
    assert Normalised([CR, LF]) == [LF] + Normalised([]) == [LF];
    assert Normalised(s) == [LF] + Normalised([CR, LF]);
    assert InPlace(s, NEWLINES_ONLY, 0, []) == InPlace(s, NEWLINES_ONLY, 2, [] + [LF]);
    assert InPlace(s, NEWLINES_ONLY, 2, [LF]) == InPlace(s, NEWLINES_ONLY, 3, [LF] + [LF]);
  }
}
