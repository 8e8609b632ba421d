/** The lazily decoded string of server/tinyxml2.h: two positions in a shared
    buffer, decoded in place on first use. */
module StrPairs {
  import opened XmlChars
  import opened CharRef
  import opened Decoding
  import Whitespace

  // ----- The two-pointer loop of GetStr -----

  /** The five predefined entities, tried in table order. */
  method MatchEntity(buffer: array<char>, start: nat, p: nat, ghost s: string) returns (r: Option<Entity>)
    requires p < |s| && start + |s| < buffer.Length
    requires Whitespace.Unread(buffer, start, p, s)
    ensures r == FindEntity(s, p, 0)
  {
    PatternsAreText();
    hide FindEntity, Decoding.Names, NoNul;
    for i := 0 to |ENTITIES|
      invariant FindEntity(s, p, 0) == FindEntity(s, p, i)
    {
      var e := ENTITIES[i];
      FindNext(s, p, i);
      var matches := Spells(buffer, start, p + 1, e.pattern, s);
      if matches {
        assert At(s, p + 1 + |e.pattern|) == buffer[start + p + 1 + |e.pattern|];
        if buffer[start + p + 1 + |e.pattern|] == ';' {
          return Some(e);
        }
      }
    }
    NoneLeft(s, p);
    r := None;
  }

  lemma PatternsAreText()
    ensures forall i :: 0 <= i < |ENTITIES| ==> NoNul(ENTITIES[i].pattern)
  {
  }

  lemma FindNext(s: string, p: nat, i: nat)
    requires i < |ENTITIES|
    ensures var e := ENTITIES[i];
      FindEntity(s, p, i) == if StartsAt(s, p + 1, e.pattern) && At(s, p + 1 + |e.pattern|) == ';' then Some(e)
                             else FindEntity(s, p, i + 1)
  {
  }

  lemma NoneLeft(s: string, p: nat)
    ensures FindEntity(s, p, |ENTITIES|) == None
  {
  }

  /** strncmp of the buffer with a pattern free of NUL. */
  method Spells(buffer: array<char>, start: nat, i: nat, pattern: string, ghost s: string) returns (matches: bool)
    requires i <= |s| && start + |s| < buffer.Length && NoNul(pattern)
    requires Whitespace.Unread(buffer, start, i, s)
    ensures matches == StartsAt(s, i, pattern)
  {
    var k := 0;
    while k < |pattern|
      invariant 0 <= k <= |pattern| && StartsAt(s, i, pattern[..k])
    {
      assert At(s, i + k) == buffer[start + i + k];
      if buffer[start + i + k] != pattern[k] {
        Mismatch(s, i, pattern, k);
        return false;
      }
      assert s[i..i + k + 1] == s[i..i + k] + [pattern[k]] && pattern[..k + 1] == pattern[..k] + [pattern[k]];
      k := k + 1;
    }
    assert pattern[..k] == pattern;
    matches := true;
  }

  lemma Mismatch(s: string, i: nat, pattern: string, k: nat)
    requires k < |pattern| && At(s, i + k) != pattern[k]
    ensures !StartsAt(s, i, pattern)
  {
    if i + |pattern| <= |s| {
      assert s[i..i + |pattern|][k] == s[i + k];
    }
  }

  /** One iteration: reads at offset `p`, writes at offset `n`. */
  method DecodeStep(buffer: array<char>, start: nat, p: nat, n: nat, f: Flags, ghost s: string)
    returns (next: nat, written: nat)
    requires n <= p < |s| && start + |s| < buffer.Length
    requires Whitespace.Unread(buffer, start, n, s)
    modifies buffer
    ensures next == NextPiece(s, f, p).next
    ensures written == |Written(s, f, p, n)|
    ensures buffer[start + n..start + n + written] == Written(s, f, p, n)
    ensures forall k :: 0 <= k < buffer.Length && !(start + n <= k < start + n + written) ==> buffer[k] == old(buffer[k])
  {
    hide CharacterRef, FindEntity;
    assert At(s, p) == buffer[start + p] && At(s, p + 1) == buffer[start + p + 1] && At(s, n) == buffer[start + n];
    var c := buffer[start + p];
    if f.newlines && c == CR {
      next, written := if buffer[start + p + 1] == LF then p + 2 else p + 1, 1;
      buffer[start + n] := LF;
    } else if f.newlines && c == LF {
      next, written := if buffer[start + p + 1] == CR then p + 2 else p + 1, 1;
      buffer[start + n] := LF;
    } else if f.entities && c == '&' {
      if buffer[start + p + 1] == '#' {
        next, written := DecodeReference(buffer, start, p, n, s);
      } else {
        var entity := MatchEntity(buffer, start, p, s);
        written := 1;
        match entity
        case Some(e) =>
          buffer[start + n] := e.value;
          next := p + |e.pattern| + 2;
        case None =>
          next := p + 1;
      }
    } else {
      buffer[start + n] := c;
      next, written := p + 1, 1;
    }
  }

  method DecodeReference(buffer: array<char>, start: nat, p: nat, n: nat, ghost s: string)
    returns (next: nat, written: nat)
    requires n <= p < |s| && start + |s| < buffer.Length
    requires Whitespace.Unread(buffer, start, n, s)
    requires At(s, p) == '&' && At(s, p + 1) == '#'
    modifies buffer
    ensures p < next <= |s| && written <= next - p
    ensures match CharacterRef(s, p)
      case NotARef => next == p + 1 && written == 1 && buffer[start + n] == '&'
      case Ref(bytes, after) => next == after && buffer[start + n..start + n + written] == bytes
    ensures forall k :: 0 <= k < buffer.Length && !(start + n <= k < start + n + written) ==> buffer[k] == old(buffer[k])
  {
    hide CharacterRef;
    assert At(s, |s|) == buffer[start + |s|];
    var buf := new char[10](_ => NUL);
    forall k | p <= k < |s|
      ensures buffer[start + k] == s[k]
    {
      assert At(s, k) == s[k];
    }
    var adjusted, len := GetCharacterRef(buffer, start, p, buf, s);
    if adjusted == -1 {
      buffer[start + n] := '&';
      return p + 1, 1;
    }
    next, written := adjusted, len;
    forall k | 0 <= k < len {
      buffer[start + n + k] := buf[k];
    }
    assert buffer[start + n..start + n + len] == buf[..len];
  }

  /** Rewrites the text in front of the terminator at `start + |s|`. */
  method DecodeInPlace(buffer: array<char>, start: nat, end: nat, f: Flags, ghost s: string)
    requires start + |s| == end < buffer.Length && buffer[end] == NUL
    requires buffer[start..end] == s
    modifies buffer
    ensures var text := InPlace(s, f, 0, []);
      buffer[start..start + |text|] == text && buffer[start + |text|] == NUL
    ensures forall k :: 0 <= k < buffer.Length && !(start <= k <= end) ==> buffer[k] == old(buffer[k])
  {
    hide NextPiece, Written;
    forall k | 0 <= k <= |s|
      ensures buffer[start + k] == At(s, k)
    {
      assert k < |s| ==> buffer[start..end][k] == buffer[start + k];
    }
    var p, n := 0, 0;
    ghost var out := "";
    while start + p < end
      invariant n <= p <= |s| && n == |out|
      invariant buffer[start..start + n] == out
      invariant InPlace(s, f, p, out) == InPlace(s, f, 0, [])
      invariant Whitespace.Unread(buffer, start, n, s)
      invariant forall k :: 0 <= k < buffer.Length && !(start <= k < start + n) ==> buffer[k] == old(buffer[k])
      decreases |s| - p
    {
      var next, written := DecodeStep(buffer, start, p, n, f, s);
      assert buffer[start..start + n] == out;
      assert buffer[start..start + n + written] == buffer[start..start + n] + buffer[start + n..start + n + written];
      out := out + Written(s, f, p, n);
      n, p := n + written, next;
    }
    assert out == InPlace(s, f, 0, []);
    buffer[start + n] := NUL;
    assert buffer[start..start + n] == out;
  }

  /** Terminates, decodes and, if asked, collapses the text; returns its new start. */
  method Flush(buffer: array<char>, start: nat, end: nat, f: Flags) returns (newStart: nat)
    requires start <= end < buffer.Length
    modifies buffer
    ensures start <= newStart <= end
    ensures CString(buffer[newStart..end + 1]) == Value(old(buffer[start..end]), f)
    ensures |CString(buffer[newStart..end + 1])| <= end - newStart
    ensures forall k :: 0 <= k < buffer.Length && !(start <= k <= end) ==> buffer[k] == old(buffer[k])
  {
    hide InPlace, Whitespace.Collapsed;
    ghost var s := buffer[start..end];
    ghost var text := InPlace(s, f, 0, []);
    newStart := start;
    buffer[end] := NUL;
    assert buffer[start..end] == s;
    if f.entities || f.newlines || f.collapse {
      DecodeInPlace(buffer, start, end, f, s);
    } else {
      assert s[..0] == [];
      NothingToDecode(s, f, 0);
    }
    assert buffer[start..start + |text|] == text && buffer[start + |text|] == NUL;
    StringEndsAt(buffer[..], start, text, end);
    if f.collapse {
      newStart := CollapseText(buffer, start, end, text);
    }
  }

  method CollapseText(buffer: array<char>, start: nat, end: nat, ghost text: string) returns (newStart: nat)
    requires start + |text| <= end < buffer.Length
    requires buffer[start..start + |text|] == text && buffer[start + |text|] == NUL
    modifies buffer
    ensures start <= newStart && newStart + |Whitespace.Collapsed(CString(text))| <= end
    ensures CString(buffer[newStart..end + 1]) == Whitespace.Collapsed(CString(text))
    ensures forall k :: 0 <= k < buffer.Length && !(start <= k <= end) ==> buffer[k] == old(buffer[k])
  {
    hide Whitespace.Collapsed;
    ghost var c := CString(text);
    assert buffer[start..start + |c|] == buffer[start..start + |text|][..|c|] == c;
    assert |c| < |text| ==> buffer[start..start + |text|][|c|] == buffer[start + |c|];
    newStart := Whitespace.CollapseWhitespace(buffer, start, c);
    CollapsedNoNul(c);
    StringEndsAt(buffer[..], newStart, Whitespace.Collapsed(c), end);
    CStringUnique(Whitespace.Collapsed(c), |Whitespace.Collapsed(c)|);
  }

  lemma StringEndsAt(content: string, start: nat, text: string, end: nat)
    requires start + |text| <= end < |content|
    requires content[start..start + |text|] == text && content[start + |text|] == NUL
    ensures CString(content[start..end + 1]) == CString(text)
  {
    var range, n := content[start..end + 1], |CString(text)|;
    RangeOfText(content, start, text, end);
    hide *;
    assert range[..n] == range[..|text|][..n];
    assert n < |text| ==> range[n] == range[..|text|][n];
    CStringUnique(range, n);
  }

  lemma RangeOfText(content: string, start: nat, text: string, end: nat)
    requires start + |text| <= end < |content|
    requires content[start..start + |text|] == text && content[start + |text|] == NUL
    ensures |text| < |content[start..end + 1]|
    ensures content[start..end + 1][..|text|] == text && content[start..end + 1][|text|] == NUL
  {
  }

  /** The logical value of a closed range of bytes, whose last byte is the one
      GetStr overwrites with the terminator. */
  function LogicalValue(range: string, pending: bool, flags: Flags): string
    requires range != ""
  {
    if pending then Value(range[..|range| - 1], flags) else CString(range)
  }

  class StrPair {
    var buffer: array<char>
    var start: nat
    var end: nat
    var needsFlush: bool
    var flags: Flags

    ghost predicate Valid()
      reads this, buffer
    {
      && start <= end < buffer.Length
      && (!needsFlush ==> |CString(Range())| <= end - start)
    }

    /** The closed range [start, end]. */
    ghost function Range(): string
      reads this, buffer
      requires start <= end < buffer.Length
    {
      buffer[start..end + 1]
    }

    /** What the caller of GetStr gets to see, before and after the call. */
    ghost function Logical(): string
      reads this, buffer
      requires start <= end < buffer.Length
    {
      LogicalValue(Range(), needsFlush, flags)
    }

    constructor Set(buffer: array<char>, start: nat, end: nat, flags: Flags)
      requires start <= end < buffer.Length
      ensures Valid() && this.buffer == buffer && this.start == start && this.end == end
      ensures needsFlush && this.flags == flags
    {
      this.buffer, this.start, this.end, this.flags, needsFlush := buffer, start, end, flags, true;
    }

    method GetStr() returns (str: nat)
      requires Valid()
      modifies this, buffer
      ensures Valid() && !needsFlush && buffer == old(buffer) && end == old(end) && old(start) <= start
      ensures str == start && CString(Range()) == old(Logical())
      ensures forall k :: 0 <= k < buffer.Length && !(old(start) <= k <= end) ==> buffer[k] == old(buffer[k])
      ensures !old(needsFlush) ==> start == old(start) && buffer[..] == old(buffer[..])
    {
      if needsFlush {
        assert Range()[..|Range()| - 1] == buffer[start..end];
        start := Flush(buffer, start, end, flags);
        needsFlush, flags := false, NAME;
      }
      str := start;
    }
  }

  // ----- Many strings in one buffer -----

  /** The pairs share one buffer and their closed ranges do not meet. */
  ghost predicate Apart(pairs: seq<StrPair>, buffer: array<char>)
    reads pairs, buffer
  {
    && (forall i :: 0 <= i < |pairs| ==> pairs[i].buffer == buffer && pairs[i].Valid())
    && (forall i, j :: 0 <= i < j < |pairs| ==> pairs[i].end < pairs[j].start)
  }

  /** The caller's view of every pair. */
  ghost function Texts(pairs: seq<StrPair>, buffer: array<char>): (texts: seq<string>)
    reads pairs, buffer
    requires Apart(pairs, buffer)
    ensures |texts| == |pairs|
  {
    seq(|pairs|, i requires 0 <= i < |pairs| && pairs[i].buffer == buffer && pairs[i].Valid() reads pairs, buffer => pairs[i].Logical())
  }

  /** One GetStr among the others: it returns its own text and leaves the text
      of every pair, decoded or not, what it was. */
  method GetOne(pairs: seq<StrPair>, buffer: array<char>, i: nat) returns (text: string)
    requires i < |pairs| && Apart(pairs, buffer)
    modifies pairs[i], buffer
    ensures Apart(pairs, buffer)
    ensures Texts(pairs, buffer) == old(Texts(pairs, buffer))
    ensures text == old(Texts(pairs, buffer))[i]
  {
    hide Value, CString;
    forall j | 0 <= j < |pairs| && j != i
      ensures pairs[j] != pairs[i]
    {
      assert j < i ==> pairs[j].end < pairs[i].start;
      assert i < j ==> pairs[i].end < pairs[j].start;
    }
    label before:
    var at := pairs[i].GetStr();
    forall j | 0 <= j < |pairs| && j != i
      ensures pairs[j].Valid() && pairs[j].Logical() == old(pairs[j].Logical())
    {
      assert j < i ==> old(pairs[j].end) < old(pairs[i].start);
      assert i < j ==> old(pairs[i].end) < old(pairs[j].start);
      assert pairs[j].Range() == old(pairs[j].Range());
    }
    assert pairs[i].Logical() == old(pairs[i].Logical());
    text := CString(buffer[at..pairs[i].end + 1]);
  }

  /** Any number of calls in any order give every reader the same text. */
  method GetInOrder(pairs: seq<StrPair>, buffer: array<char>, order: seq<nat>) returns (texts: seq<string>)
    requires Apart(pairs, buffer)
    requires forall k :: 0 <= k < |order| ==> order[k] < |pairs|
    modifies pairs, buffer
    ensures Apart(pairs, buffer)
    ensures |texts| == |order|
    ensures forall k :: 0 <= k < |order| ==> texts[k] == old(Texts(pairs, buffer))[order[k]]
  {
    texts := [];
    for n := 0 to |order|
      invariant Apart(pairs, buffer) && Texts(pairs, buffer) == old(Texts(pairs, buffer))
      invariant |texts| == n
      invariant forall k :: 0 <= k < n ==> texts[k] == old(Texts(pairs, buffer))[order[k]]
    {
      var text := GetOne(pairs, buffer, order[n]);
      texts := texts + [text];
    }
  }
}
