/** Entity escaping by XMLPrinter::PrintString, and its inverse. */
module Escape {
  import opened XmlChars
  import opened CharRef
  import opened Decoding

  /** The characters flagged in the restricted and in the full entity set. */
  predicate IsEscaped(c: char, restricted: bool) {
    c == '&' || c == '<' || c == '>' || (!restricted && (c == '"' || c == '\''))
  }

  function EntityOf(c: char): (e: Entity)
    requires IsEscaped(c, false)
    ensures e in ENTITIES && e.value == c
  {
    match c
    case '"' => ENTITIES[0]
    case '&' => ENTITIES[1]
    case '\'' => ENTITIES[2]
    case '<' => ENTITIES[3]
    case _ => ENTITIES[4]
  }

  function EscapeChar(c: char, restricted: bool): (r: string)
    ensures r != ""
  {
    if !IsEscaped(c, restricted) then [c]
    else
      match c
      case '"' => "&quot;"
      case '&' => "&amp;"
      case '\'' => "&apos;"
      case '<' => "&lt;"
      case _ => "&gt;"
  }

  lemma EscapeFromTable(c: char, restricted: bool)
    requires IsEscaped(c, restricted)
    ensures EscapeChar(c, restricted) == "&" + EntityOf(c).pattern + ";"
  {
  }

  function Escaped(s: string, restricted: bool): string {
    if s == "" then "" else EscapeChar(s[0], restricted) + Escaped(s[1..], restricted)
  }

  /** What PrintString writes. */
  function Printed(s: string, restricted: bool, processEntities: bool): string {
    if processEntities then Escaped(s, restricted) else s
  }

  /** What ends the scan of a text or of a quoted value does not occur. */
  lemma {:induction false} NoDelimiters(s: string, restricted: bool)
    ensures '<' !in Escaped(s, restricted) && '>' !in Escaped(s, restricted)
    ensures !restricted ==> '"' !in Escaped(s, restricted) && '\'' !in Escaped(s, restricted)
    ensures NoNul(s) ==> NoNul(Escaped(s, restricted))
  {
    hide EscapeChar;
    if s != "" {
      NoDelimiters(s[1..], restricted);
      CleanChar(s[0], restricted);
    }
  }

  lemma CleanChar(c: char, restricted: bool)
    ensures '<' !in EscapeChar(c, restricted) && '>' !in EscapeChar(c, restricted)
    ensures !restricted ==> '"' !in EscapeChar(c, restricted) && '\'' !in EscapeChar(c, restricted)
    ensures c != NUL ==> NoNul(EscapeChar(c, restricted))
    ensures c != CR ==> NoCr(EscapeChar(c, restricted))
  {
  }

  /** The five entities, and who prints as itself: in text all characters but three,
      in attribute values all but five. */
  lemma Spellings(c: char, restricted: bool)
    ensures Escaped("&", restricted) == "&amp;" && Escaped("<", restricted) == "&lt;"
    ensures Escaped(">", restricted) == "&gt;"
    ensures Escaped("\"", false) == "&quot;" && Escaped("'", false) == "&apos;"
    ensures Escaped([c], restricted) == [c] <==> c !in (if restricted then "&<>" else "&<>\"'")
  {
    EscapedOne('&', restricted);
    EscapedOne('<', restricted);
    EscapedOne('>', restricted);
    EscapedOne('"', false);
    EscapedOne('\'', false);
    EscapedOne(c, restricted);
  }

  lemma EscapedOne(c: char, restricted: bool)
    ensures Escaped([c], restricted) == EscapeChar(c, restricted)
  {
    assert [c][1..] == "";
    assert Escaped([c], restricted) == EscapeChar(c, restricted) + Escaped("", restricted);
  }

  /** Characters are printed one by one. */
  lemma {:induction false} EscapedConcat(a: string, b: string, restricted: bool)
    ensures Escaped(a + b, restricted) == Escaped(a, restricted) + Escaped(b, restricted)
  {
    hide EscapeChar;
    if a == "" {
      assert a + b == b;
    } else {
      assert (a + b)[0] == a[0] && (a + b)[1..] == a[1..] + b;
      EscapedConcat(a[1..], b, restricted);
    }
  }

  predicate NoCr(s: string) {
    forall k :: 0 <= k < |s| ==> s[k] != CR
  }

  /** The entity a printed escape names is the first one found. */
  lemma FoundEntity(s: string, p: nat, c: char)
    requires IsEscaped(c, false) && StartsAt(s, p, "&" + EntityOf(c).pattern + ";")
    ensures FindEntity(s, p, 0) == Some(EntityOf(c))
    ensures At(s, p) == '&' && At(s, p + 1) != '#'
  {
    var e := EntityOf(c);
    StartsAtConcat(s, p, "&" + e.pattern, ";");
    StartsAtConcat(s, p, "&", e.pattern);
    StartsAtChar(s, p, '&');
    StartsAtChar(s, p + 1 + |e.pattern|, ';');
    assert Names(s, p, e);
    assert s[p + 1..p + 1 + |e.pattern|][0] == s[p + 1] && s[p + 1..p + 1 + |e.pattern|][1] == s[p + 2];
    OnlyEntity(s, p, e);
  }

  lemma OnlyEntity(s: string, p: nat, e: Entity)
    requires e in ENTITIES && Names(s, p, e)
    ensures FindEntity(s, p, 0) == Some(e)
  {
    forall other | other in ENTITIES && other != e
      ensures !Names(s, p, other)
    {
      if Names(s, p, other) {
        TwoLetters(s, p, e);
        TwoLetters(s, p, other);
      }
    }
    assert FindEntity(s, p, 0) == FindEntity(s, p, 1) || e == ENTITIES[0];
    assert FindEntity(s, p, 1) == FindEntity(s, p, 2) || FindEntity(s, p, 1) == Some(ENTITIES[1]);
    assert FindEntity(s, p, 2) == FindEntity(s, p, 3) || FindEntity(s, p, 2) == Some(ENTITIES[2]);
    assert FindEntity(s, p, 3) == FindEntity(s, p, 4) || FindEntity(s, p, 3) == Some(ENTITIES[3]);
  }

  /** The first two letters of a pattern tell the entities apart. */
  lemma TwoLetters(s: string, p: nat, e: Entity)
    requires e in ENTITIES && Names(s, p, e)
    ensures p + 2 < |s| && s[p + 1] == e.pattern[0] && s[p + 2] == e.pattern[1]
  {
    assert s[p + 1..p + 1 + |e.pattern|][0] == s[p + 1] && s[p + 1..p + 1 + |e.pattern|][1] == s[p + 2];
  }

  /** One decoding step undoes one escaped character. */
  lemma StepInverts(s: string, f: Flags, p: nat, c: char, restricted: bool)
    requires f.entities && c != CR && StartsAt(s, p, EscapeChar(c, restricted))
    requires At(s, p + 1) != CR
    ensures p < |s| && NextPiece(s, f, p) == Copied([c], p + |EscapeChar(c, restricted)|)
  {
    if IsEscaped(c, restricted) {
      EscapeFromTable(c, restricted);
      FoundEntity(s, p, c);
    } else {
      StartsAtChar(s, p, c);
    }
  }

  lemma {:induction false} InPlaceInverts(s: string, f: Flags, p: nat, out: string, w: string, restricted: bool)
    requires f.entities && NoCr(w) && |out| <= p <= |s| && s[p..] == Escaped(w, restricted)
    ensures InPlace(s, f, p, out) == out + w
    decreases |w|
  {
    hide *;
    if w == "" {
      NothingLeft(s, f, p, out, restricted);
      assert out + w == out;
    } else {
      EscapedSplits(s, p, w, restricted);
      CleanHead(w);
      StepInverts(s, f, p, w[0], restricted);
      var next := p + |EscapeChar(w[0], restricted)|;
      CopiedStep(s, f, p, out, w[0], next);
      InPlaceInverts(s, f, next, out + [w[0]], w[1..], restricted);
      assert out + [w[0]] + w[1..] == out + w;
    }
  }

  lemma NothingLeft(s: string, f: Flags, p: nat, out: string, restricted: bool)
    requires |out| <= p <= |s| && s[p..] == Escaped("", restricted)
    ensures InPlace(s, f, p, out) == out
  {
  }

  lemma CleanHead(w: string)
    requires w != "" && NoCr(w)
    ensures w[0] != CR && NoCr(w[1..])
  {
  }

  lemma CopiedStep(s: string, f: Flags, p: nat, out: string, c: char, next: nat)
    requires |out| <= p < |s| && NextPiece(s, f, p) == Copied([c], next)
    ensures |out + [c]| <= next <= |s| && InPlace(s, f, p, out) == InPlace(s, f, next, out + [c])
  {
    hide NextPiece;
  }

  lemma EscapedSplits(s: string, p: nat, w: string, restricted: bool)
    requires w != "" && NoCr(w) && p <= |s| && s[p..] == Escaped(w, restricted)
    ensures StartsAt(s, p, EscapeChar(w[0], restricted)) && At(s, p + 1) != CR
    ensures s[p + |EscapeChar(w[0], restricted)|..] == Escaped(w[1..], restricted)
  {
    hide EscapeChar;
    var head := EscapeChar(w[0], restricted);
    assert s[p..][..|head|] == s[p..p + |head|] == head;
    assert s[p + |head|..] == s[p..][|head|..];
    NoCrEscaped(w, restricted);
    assert p + 1 < |s| ==> s[p + 1] == s[p..][1];
  }

  lemma {:induction false} NoCrEscaped(s: string, restricted: bool)
    requires NoCr(s)
    ensures NoCr(Escaped(s, restricted))
  {
    hide EscapeChar;
    if s != "" {
      NoCrEscaped(s[1..], restricted);
      CleanChar(s[0], restricted);
    }
  }

  /** Reading what PrintString wrote gives back the string, for either set. */
  lemma EscapeInverse(w: string, restricted: bool, f: Flags)
    requires NoNul(w) && NoCr(w) && f.entities && !f.collapse
    ensures Value(Escaped(w, restricted), f) == w
  {
    var s := Escaped(w, restricted);
    assert s[0..] == s;
    InPlaceInverts(s, f, 0, [], w, restricted);
    assert [] + w == w;
    CStringUnique(w, |w|);
    assert w[..|w|] == w;
  }

  /** Bodies printed as they are survive newline normalisation if free of CR. */
  lemma {:induction false} InPlaceKeeps(s: string, f: Flags, p: nat)
    requires !f.entities && NoCr(s) && p <= |s|
    ensures InPlace(s, f, p, s[..p]) == s
    decreases |s| - p
  {
    if p < |s| {
      assert s[..p] + [s[p]] == s[..p + 1];
      InPlaceKeeps(s, f, p + 1);
    }
  }

  lemma PlainInverse(s: string, f: Flags)
    requires NoNul(s) && NoCr(s) && !f.entities && !f.collapse
    ensures Value(s, f) == s
  {
    InPlaceKeeps(s, f, 0);
    assert s[..0] == [] && s[..|s|] == s;
    CStringUnique(s, |s|);
  }
}
