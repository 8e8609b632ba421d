/** What StrPair::GetStr computes, as functions of the text between its two
    pointers (which is followed by a NUL when they are evaluated). */
module Decoding {
  import opened XmlChars
  import opened CharRef
  import Whitespace

  /** The StrPair flags that ask for work. */
  datatype Flags = Flags(entities: bool, newlines: bool, collapse: bool)

  const NAME := Flags(false, false, false)
  const NEWLINES_ONLY := Flags(false, true, false)
  const ATTRIBUTE_VALUE := Flags(true, true, false)

  datatype Entity = Entity(pattern: string, value: char)

  const ENTITIES := [
    Entity("quot", '"'), Entity("amp", '&'), Entity("apos", '\''), Entity("lt", '<'), Entity("gt", '>')]

  predicate Names(s: string, p: nat, e: Entity) {
    StartsAt(s, p + 1, e.pattern) && At(s, p + 1 + |e.pattern|) == ';'
  }

  /** The first table entry spelled out after the ampersand at `p`. */
  function FindEntity(s: string, p: nat, i: nat): (r: Option<Entity>)
    requires i <= |ENTITIES|
    ensures r.Some? ==> r.value in ENTITIES && Names(s, p, r.value)
    decreases |ENTITIES| - i
  {
    if i == |ENTITIES| then None
    else if Names(s, p, ENTITIES[i]) then Some(ENTITIES[i])
    else FindEntity(s, p, i + 1)
  }

  /** One step of the decoding loop: the bytes written and where reading goes
      on. `Skipped` is an unrecognised ampersand, over which the write pointer
      moves without writing. */
  datatype Piece = Copied(text: string, next: nat) | Skipped(next: nat)

  function NextPiece(s: string, f: Flags, p: nat): (r: Piece)
    requires p < |s|
    ensures p < r.next <= |s|
    ensures r.Copied? ==> |r.text| <= r.next - p
    ensures r.Skipped? ==> r.next == p + 1 && s[p] == '&'
  {
    if f.newlines && s[p] == CR then Copied([LF], if At(s, p + 1) == LF then p + 2 else p + 1)
    else if f.newlines && s[p] == LF then Copied([LF], if At(s, p + 1) == CR then p + 2 else p + 1)
    else if f.entities && s[p] == '&' then
      if At(s, p + 1) == '#' then
        match CharacterRef(s, p)
        case NotARef => Copied([s[p]], p + 1)
        case Ref(bytes, next) => Copied(bytes, next)
      else
        match FindEntity(s, p, 0)
        case Some(e) => Copied([e.value], p + |e.pattern| + 2)
        case None => Skipped(p + 1)
    else Copied([s[p]], p + 1)
  }

  /** What one step leaves between the old write pointer, `n` bytes into the
      text, and the new one. Bytes from `n` on have not been overwritten yet, so
      a skipped ampersand contributes the byte that happens to be there. */
  function Written(s: string, f: Flags, p: nat, n: nat): (text: string)
    requires n <= p < |s|
    ensures |text| <= NextPiece(s, f, p).next - p
  {
    match NextPiece(s, f, p)
    case Copied(text, _) => text
    case Skipped(_) => [s[n]]
  }

  /** The text the loop leaves when it goes on reading at `p` with `out` written. */
  function InPlace(s: string, f: Flags, p: nat, out: string): (r: string)
    requires |out| <= p <= |s|
    ensures |r| <= |s|
    decreases |s| - p
  {
    if p == |s| then out
    else InPlace(s, f, NextPiece(s, f, p).next, out + Written(s, f, p, |out|))
  }

  /** The same steps read left to right into a text of their own, where an
      unrecognised ampersand stands for itself. They recognise what the code
      recognises; `Intended.Meant` is what the text means. */
  function Decoded(s: string, f: Flags, p: nat): string
    requires p <= |s|
    decreases |s| - p
  {
    if p == |s| then [] else
    match NextPiece(s, f, p)
    case Copied(text, next) => text + Decoded(s, f, next)
    case Skipped(next) => "&" + Decoded(s, f, next)
  }

  /** Every unrecognised ampersand finds an ampersand under the write pointer
      `q`, as it does when nothing before it has shrunk. */
  predicate AmpersandsStay(s: string, f: Flags, p: nat, q: nat)
    requires q <= p <= |s|
    decreases |s| - p
  {
    p == |s| ||
    match NextPiece(s, f, p)
    case Copied(text, next) => AmpersandsStay(s, f, next, q + |text|)
    case Skipped(next) => s[q] == '&' && AmpersandsStay(s, f, next, q + 1)
  }

  /** Working in place costs nothing exactly when the ampersands stay. */
  lemma {:induction false} InPlaceDecodes(s: string, f: Flags, p: nat, out: string)
    requires |out| <= p <= |s|
    ensures InPlace(s, f, p, out) == out + Decoded(s, f, p) <==> AmpersandsStay(s, f, p, |out|)
    ensures |InPlace(s, f, p, out)| == |out + Decoded(s, f, p)|
    ensures InPlace(s, f, p, out)[..|out|] == out
    decreases |s| - p
  {
    hide NextPiece;
    if p < |s| {
      var piece := NextPiece(s, f, p);
      var written := Written(s, f, p, |out|);
      var wanted := if piece.Copied? then piece.text else "&";
      InPlaceDecodes(s, f, piece.next, out + written);
      assert out + wanted + Decoded(s, f, piece.next) == out + Decoded(s, f, p);
      assert InPlace(s, f, p, out)[..|out + written|] == out + written;
      if written != wanted {
        assert InPlace(s, f, p, out)[|out|] == written[0];
        assert (out + Decoded(s, f, p))[|out|] == wanted[0];
      }
    }
  }

  /** Every ampersand is taken for the start of a reference or an entity. */
  predicate NoStrayAmpersand(s: string, f: Flags) {
    forall p :: 0 <= p < |s| ==> NextPiece(s, f, p).Copied?
  }

  lemma {:induction false} RecognisedStay(s: string, f: Flags, p: nat, q: nat)
    requires q <= p <= |s| && NoStrayAmpersand(s, f)
    ensures AmpersandsStay(s, f, p, q)
    decreases |s| - p
  {
    hide NextPiece;
    if p < |s| {
      var piece := NextPiece(s, f, p);
      RecognisedStay(s, f, piece.next, q + |piece.text|);
    }
  }

  lemma RecognisedDecodes(s: string, f: Flags)
    requires NoStrayAmpersand(s, f)
    ensures InPlace(s, f, 0, []) == Decoded(s, f, 0)
  {
    RecognisedStay(s, f, 0, 0);
    InPlaceDecodes(s, f, 0, []);
    assert [] + Decoded(s, f, 0) == Decoded(s, f, 0);
  }

  lemma OtherName(s: string, p: nat, e: Entity, k: nat)
    requires k < |e.pattern| && At(s, p + 1 + k) != e.pattern[k]
    ensures !Names(s, p, e)
  {
    if p + 1 + |e.pattern| <= |s| {
      assert s[p + 1..p + 1 + |e.pattern|][k] == s[p + 1 + k];
    }
  }

  /** A stray ampersand behind an entity comes out as the stale byte under the
      write pointer. */
  lemma StrayAmpersandIsLost()
    ensures Decoded("&lt;&x", ATTRIBUTE_VALUE, 0) == "<&x"
    ensures InPlace("&lt;&x", ATTRIBUTE_VALUE, 0, []) == "<lx"
  {
    var s, f := "&lt;&x", ATTRIBUTE_VALUE;
    assert NextPiece(s, f, 0) == Copied("<", 4) by {
      OtherName(s, 0, ENTITIES[0], 0);
      OtherName(s, 0, ENTITIES[1], 0);
      OtherName(s, 0, ENTITIES[2], 0);
      assert Names(s, 0, ENTITIES[3]);
      assert FindEntity(s, 0, 3) == Some(ENTITIES[3]);
      assert FindEntity(s, 0, 1) == FindEntity(s, 0, 2) == FindEntity(s, 0, 3);
    }
    assert NextPiece(s, f, 4) == Skipped(5) by {
      OtherName(s, 4, ENTITIES[0], 0);
      OtherName(s, 4, ENTITIES[1], 0);
      OtherName(s, 4, ENTITIES[2], 0);
      OtherName(s, 4, ENTITIES[3], 0);
      OtherName(s, 4, ENTITIES[4], 0);
      assert FindEntity(s, 4, 5) == FindEntity(s, 4, 4) == FindEntity(s, 4, 3) == None;
      assert FindEntity(s, 4, 3) == FindEntity(s, 4, 2) == FindEntity(s, 4, 1);
    }
    assert NextPiece(s, f, 5) == Copied("x", 6);
    hide NextPiece;
    assert Decoded(s, f, 5) == "x" + Decoded(s, f, 6);
    assert Decoded(s, f, 4) == "&" + Decoded(s, f, 5);
    assert InPlace(s, f, 4, "<") == InPlace(s, f, 5, "<" + "l");
    assert InPlace(s, f, 5, "<l") == InPlace(s, f, 6, "<l" + "x");
    assert InPlace(s, f, 0, []) == InPlace(s, f, 4, [] + "<");
  }

  /** The C string GetStr returns for the text `s`. */
  function Value(s: string, f: Flags): (r: string)
    ensures NoNul(r)
  {
    var text := CString(InPlace(s, f, 0, []));
    if f.collapse then
      CollapsedNoNul(text);
      Whitespace.Collapsed(text)
    else text
  }

  lemma CollapsedNoNul(s: string)
    requires NoNul(s)
    ensures NoNul(Whitespace.Collapsed(s))
  {
    Whitespace.CollapsedChars(s, 0);
    forall k | 0 <= k < |Whitespace.Collapsed(s)|
      ensures Whitespace.Collapsed(s)[k] != NUL
    {
      assert Whitespace.Collapsed(s)[k] in Whitespace.Collapsed(s);
    }
  }

  /** Without flags the text is only terminated. */
  lemma {:induction false} NothingToDecode(s: string, f: Flags, p: nat)
    requires !f.entities && !f.newlines && p <= |s|
    ensures InPlace(s, f, p, s[..p]) == s
    decreases |s| - p
  {
    if p < |s| {
      assert s[..p] + [s[p]] == s[..p + 1];
      NothingToDecode(s, f, p + 1);
    }
  }
}
