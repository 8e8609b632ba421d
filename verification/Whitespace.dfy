/** StrPair::CollapseWhitespace: the words of a text joined by single spaces. */
module Whitespace {
  import opened XmlChars

  predicate IsWord(w: string) {
    w != [] && forall k :: 0 <= k < |w| ==> !IsWhiteSpace(w[k])
  }

  predicate AllWords(ws: seq<string>) {
    forall k :: 0 <= k < |ws| ==> IsWord(ws[k])
  }

  function WordEnd(s: string, i: nat): (j: nat)
    requires i <= |s|
    ensures i <= j <= |s| && (j < |s| ==> IsWhiteSpace(s[j]))
    ensures forall k :: i <= k < j ==> !IsWhiteSpace(s[k])
    decreases |s| - i
  {
    if i < |s| && !IsWhiteSpace(s[i]) then WordEnd(s, i + 1) else i
  }

  /** The maximal runs of non-white characters from `i` on, in order. */
  function Words(s: string, i: nat): (ws: seq<string>)
    requires i <= |s|
    ensures AllWords(ws)
    decreases |s| - i
  {
    var j := SkipWs(s, i);
    if j == |s| then [] else [s[j..WordEnd(s, j)]] + Words(s, WordEnd(s, j))
  }

  function Join(ws: seq<string>): string {
    if ws == [] then []
    else if |ws| == 1 then ws[0]
    else ws[0] + " " + Join(ws[1..])
  }

  function Collapsed(s: string): string {
    Join(Words(s, 0))
  }

  /** No leading, trailing or doubled space, and no other white space. */
  predicate Tidy(s: string) {
    && (s != [] ==> !IsWhiteSpace(s[0]) && !IsWhiteSpace(s[|s| - 1]))
    && forall k :: 0 <= k < |s| && IsWhiteSpace(s[k]) ==> s[k] == ' ' && (k > 0 ==> !IsWhiteSpace(s[k - 1]))
  }

  lemma {:induction false} JoinIsTidy(ws: seq<string>)
    requires AllWords(ws)
    ensures Tidy(Join(ws))
    ensures ws != [] ==> Join(ws) != [] && Join(ws)[0] == ws[0][0]
  {
    if |ws| > 1 {
      assert IsWord(ws[0]);
      assert AllWords(ws[1..]);
      JoinIsTidy(ws[1..]);
      var rest, w := Join(ws[1..]), ws[0];
      var s := w + " " + rest;
      assert forall k :: 0 <= k < |w| ==> s[k] == w[k];
      forall k | 0 <= k < |s| && IsWhiteSpace(s[k])
        ensures s[k] == ' ' && (k > 0 ==> !IsWhiteSpace(s[k - 1]))
      {
        if k > |w| {
          assert s[k] == rest[k - |w| - 1];
          assert k > |w| + 1 ==> s[k - 1] == rest[k - |w| - 2];
        }
      }
      assert s[|s| - 1] == rest[|rest| - 1];
    } else if |ws| == 1 {
      assert IsWord(ws[0]);
    }
  }

  lemma WordsSkip(s: string, i: nat)
    requires i <= |s|
    ensures Words(s, SkipWs(s, i)) == Words(s, i)
  {
    assert SkipWs(s, SkipWs(s, i)) == SkipWs(s, i);
  }

  lemma {:induction false} WordEndAt(s: string, i: nat, j: nat)
    requires i <= j <= |s|
    requires forall k :: i <= k < j ==> !IsWhiteSpace(s[k])
    requires j < |s| ==> IsWhiteSpace(s[j])
    ensures WordEnd(s, i) == j
    decreases j - i
  {
    if i < j {
      WordEndAt(s, i + 1, j);
    }
  }

  /** Splitting undoes joining: the words and their order are kept. */
  lemma {:induction false} WordsOfJoin(ws: seq<string>, s: string, i: nat)
    requires AllWords(ws) && i <= |s| && s[i..] == Join(ws)
    ensures Words(s, i) == ws
    decreases |ws|
  {
    NothingJoined();
    hide *;
    if ws == [] {
      NoWordsLeft(s, i);
    } else {
      var w, e := ws[0], i + |ws[0]|;
      JoinSplits(ws, s, i);
      WordsSplit(ws);
      if |ws| > 1 {
        SpaceIsWhite(s, e);
        WordsOfJoin(ws[1..], s, e + 1);
        WordsAfterSpace(s, e);
      } else {
        NoWordsLeft(s, e);
      }
      FirstWord(s, i, w);
    }
  }

  lemma NothingJoined()
    ensures Join([]) == ""
  {
  }

  lemma NoWordsLeft(s: string, i: nat)
    requires i == |s|
    ensures Words(s, i) == []
  {
  }

  lemma WordsSplit(ws: seq<string>)
    requires AllWords(ws) && ws != []
    ensures IsWord(ws[0]) && AllWords(ws[1..]) && ws == [ws[0]] + ws[1..] && (|ws| == 1 ==> ws == [ws[0]])
  {
  }

  lemma SpaceIsWhite(s: string, i: nat)
    requires i < |s| && s[i] == ' '
    ensures IsWhiteSpace(s[i])
  {
  }

  lemma JoinSplits(ws: seq<string>, s: string, i: nat)
    requires ws != [] && i <= |s| && s[i..] == Join(ws)
    ensures StartsAt(s, i, ws[0])
    ensures |ws| == 1 ==> i + |ws[0]| == |s|
    ensures |ws| > 1 ==> i + |ws[0]| < |s| && s[i + |ws[0]|] == ' ' && s[i + |ws[0]| + 1..] == Join(ws[1..])
  {
    var w := ws[0];
    assert w <= s[i..];
    assert s[i..i + |w|] == s[i..][..|w|] == w;
    if |ws| > 1 {
      assert s[i..][|w|] == ' ';
      assert s[i + |w| + 1..] == s[i..][|w| + 1..] == Join(ws[1..]);
    }
  }

  lemma FirstWord(s: string, i: nat, w: string)
    requires IsWord(w) && StartsAt(s, i, w)
    requires i + |w| < |s| ==> IsWhiteSpace(s[i + |w|])
    ensures Words(s, i) == [w] + Words(s, i + |w|)
  {
    var e := i + |w|;
    forall k | i <= k < e
      ensures !IsWhiteSpace(s[k])
    {
      assert s[k] == s[i..e][k - i];
    }
    WordEndAt(s, i, e);
  }

  lemma WordsAfterSpace(s: string, i: nat)
    requires i < |s| && IsWhiteSpace(s[i])
    ensures Words(s, i) == Words(s, i + 1)
  {
  }

  lemma CollapsedIsTidy(s: string)
    ensures Tidy(Collapsed(s))
    ensures Words(Collapsed(s), 0) == Words(s, 0)
    ensures Collapsed(Collapsed(s)) == Collapsed(s)
  {
    var ws := Words(s, 0);
    JoinIsTidy(ws);
    assert Join(ws)[0..] == Join(ws);
    WordsOfJoin(ws, Join(ws), 0);
  }

  /** The characters that are not white, each with whether white space stands before it. */
  function Ink(s: string, spaced: bool): seq<(char, bool)> {
    if s == [] then []
    else if IsWhiteSpace(s[0]) then Ink(s[1..], true)
    else [(s[0], spaced)] + Ink(s[1..], false)
  }

  /** Collapsing keeps exactly the characters that are not white, in order, and a gap
      between two of them exactly where white space stood. */
  lemma CollapsedKeepsInk(s: string)
    ensures Ink(Collapsed(s), true) == Ink(s, true)
  {
    WordsKeepInk(s, 0);
    assert s[0..] == s;
  }

  lemma {:induction false} WordsKeepInk(s: string, i: nat)
    requires i <= |s|
    ensures Ink(Join(Words(s, i)), true) == Ink(s[i..], true)
    decreases |s| - i
  {
    hide *;
    InkSkips(s, i);
    NextWord(s, i);
    var j := SkipWs(s, i);
    if j < |s| {
      var e := WordEnd(s, j);
      WordsKeepInk(s, e);
      WordInk(s[j..e], s[e..], true);
      InkEnds(s, e);
      JoinedInk(s[j..e], Words(s, e));
    }
  }

  /** The first word from `i` on, and the words behind it. */
  lemma NextWord(s: string, i: nat)
    requires i <= |s|
    ensures var j := SkipWs(s, i);
      && (j == |s| ==> Words(s, i) == [] && Join(Words(s, i)) == s[j..])
      && (j < |s| ==>
            var e := WordEnd(s, j);
            && i <= j < e <= |s| && IsWord(s[j..e]) && (e < |s| ==> IsWhiteSpace(s[e]))
            && Words(s, i) == [s[j..e]] + Words(s, e) && s[j..] == s[j..e] + s[e..])
  {
  }

  lemma JoinedInk(w: string, ws: seq<string>)
    requires IsWord(w)
    ensures Ink(Join([w] + ws), true) == Ink(w, true) + Ink(Join(ws), true)
  {
    hide IsWord, IsWhiteSpace;
    if ws == [] {
      assert [w] + ws == [w];
      assert Ink(w, true) + [] == Ink(w, true);
    } else {
      assert ([w] + ws)[1..] == ws;
      assert Join([w] + ws) == w + (" " + Join(ws));
      WordInk(w, " " + Join(ws), true);
      SpaceInk(Join(ws));
    }
  }

  lemma {:induction false} InkSkips(s: string, i: nat)
    requires i <= |s|
    ensures Ink(s[i..], true) == Ink(s[SkipWs(s, i)..], true)
    decreases |s| - i
  {
    if i < |s| && IsWhiteSpace(s[i]) {
      InkSkips(s, i + 1);
      assert s[i..][1..] == s[i + 1..];
    }
  }

  /** Behind a word it makes no difference whether white space is noticed before it is met. */
  lemma InkEnds(s: string, e: nat)
    requires e <= |s| && (e < |s| ==> IsWhiteSpace(s[e]))
    ensures Ink(s[e..], false) == Ink(s[e..], true)
  {
  }

  lemma SpaceInk(rest: string)
    ensures Ink(" " + rest, false) == Ink(rest, true)
  {
    assert (" " + rest)[1..] == rest;
  }

  lemma {:induction false} WordInk(w: string, rest: string, spaced: bool)
    requires IsWord(w)
    ensures Ink(w + rest, spaced) == Ink(w, spaced) + Ink(rest, false)
  {
    assert (w + rest)[1..] == w[1..] + rest;
    if |w| == 1 {
      assert w[1..] == [] && [] + rest == rest;
    } else {
      WordInk(w[1..], rest, false);
    }
  }

  lemma {:induction false} CollapsedChars(s: string, i: nat)
    requires i <= |s|
    ensures forall c :: c in Join(Words(s, i)) ==> c in s || c == ' '
    decreases |s| - i
  {
    var j := SkipWs(s, i);
    if j < |s| {
      var ws, w := Words(s, i), s[j..WordEnd(s, j)];
      CollapsedChars(s, WordEnd(s, j));
      assert ws[1..] == Words(s, WordEnd(s, j));
      assert forall c :: c in w ==> c in s;
    }
  }

  // ----- The loop -----

  /** What the loop still writes when its read pointer is at `p`. */
  function Squeeze(s: string, p: nat): (r: string)
    requires p <= |s|
    ensures |r| <= |s| - p
    decreases |s| - p
  {
    if p == |s| then []
    else if IsWhiteSpace(s[p]) then
      var j := SkipWs(s, p);
      if j == |s| then [] else [' ', s[j]] + Squeeze(s, j + 1)
    else [s[p]] + Squeeze(s, p + 1)
  }

  lemma {:induction false} SqueezeJoins(s: string, p: nat)
    requires p <= |s|
    ensures p < |s| && !IsWhiteSpace(s[p]) ==> Squeeze(s, p) == Join(Words(s, p))
    ensures p < |s| && IsWhiteSpace(s[p]) ==>
      Squeeze(s, p) == (if Words(s, p) == [] then [] else " " + Join(Words(s, p)))
    decreases |s| - p
  {
    if p < |s| {
      if IsWhiteSpace(s[p]) {
        var j := SkipWs(s, p);
        WordsSkip(s, p);
        if j < |s| {
          SqueezeJoins(s, j);
          assert Squeeze(s, p) == " " + Squeeze(s, j);
        }
      } else {
        SqueezeJoins(s, p + 1);
        SqueezeWord(s, p);
      }
    }
  }

  lemma SqueezeWord(s: string, p: nat)
    requires p < |s| && !IsWhiteSpace(s[p])
    requires p + 1 < |s| && !IsWhiteSpace(s[p + 1]) ==> Squeeze(s, p + 1) == Join(Words(s, p + 1))
    requires p + 1 < |s| && IsWhiteSpace(s[p + 1]) ==>
      Squeeze(s, p + 1) == (if Words(s, p + 1) == [] then [] else " " + Join(Words(s, p + 1)))
    ensures Squeeze(s, p) == Join(Words(s, p))
  {
    var e := WordEnd(s, p);
    assert SkipWs(s, p) == p;
    assert Words(s, p) == [s[p..e]] + Words(s, e);
    if p + 1 < |s| && !IsWhiteSpace(s[p + 1]) {
      assert SkipWs(s, p + 1) == p + 1 && WordEnd(s, p + 1) == e;
      assert s[p..e] == [s[p]] + s[p + 1..e];
      assert Words(s, p + 1) == [s[p + 1..e]] + Words(s, e);
      JoinPrefix(s[p], s[p + 1..e], Words(s, e));
    } else {
      assert e == p + 1 && s[p..e] == [s[p]];
      var rest := Words(s, e);
      assert ([s[p..e]] + rest)[1..] == rest;
    }
  }

  lemma JoinPrefix(c: char, w: string, rest: seq<string>)
    ensures Join([[c] + w] + rest) == [c] + Join([w] + rest)
  {
    assert ([[c] + w] + rest)[1..] == rest == ([w] + rest)[1..];
    if rest != [] {
      assert [c] + w + " " + Join(rest) == [c] + (w + " " + Join(rest));
    }
  }

  /** From position `p` on, the buffer still holds the C string `s`. */
  ghost predicate Unread(buffer: array<char>, start: nat, p: nat, s: string)
    requires start + |s| < buffer.Length
    reads buffer
  {
    forall k :: p <= k <= |s| ==> buffer[start + k] == At(s, k)
  }

  /** XMLUtil::SkipWhiteSpace over a buffer that holds the C string `s` from
      `start` on, at least from position `p` of it. */
  method SkipWhiteSpace(buffer: array<char>, start: nat, p: nat, ghost s: string) returns (j: nat)
    requires p <= |s| && start + |s| < buffer.Length
    requires Unread(buffer, start, p, s)
    ensures j == SkipWs(s, p)
  {
    j := p;
    while IsWhiteSpace(buffer[start + j])
      invariant p <= j <= |s| && SkipWs(s, p) == SkipWs(s, j)
      invariant At(s, j) == buffer[start + j]
      decreases |s| - j
    {
      j := j + 1;
    }
  }

  /** Writes the next byte of `total`, whose first `n` bytes are in place. */
  method Store(buffer: array<char>, at: nat, n: nat, c: char, ghost total: string)
    requires n < |total| && total[n] == c && at + n < buffer.Length
    requires buffer[at..at + n] == total[..n]
    modifies buffer
    ensures buffer[at..at + n + 1] == total[..n + 1]
    ensures forall k :: 0 <= k < buffer.Length && k != at + n ==> buffer[k] == old(buffer[k])
  {
    buffer[at + n] := c;
    assert buffer[at..at + n + 1] == old(buffer[at..at + n]) + [c];
  }

  lemma NextOf(total: string, n: nat)
    requires n < |total|
    ensures total[n..][0] == total[n] && total[n..][1..] == total[n + 1..]
  {
  }

  /** The two-pointer loop: `p` reads, the write pointer is `n` bytes behind
      `first` and never passes `p`. */
  method SqueezeInPlace(buffer: array<char>, start: nat, first: nat, ghost s: string) returns (n: nat)
    requires first <= |s| && start + |s| < buffer.Length && NoNul(s)
    requires Unread(buffer, start, first, s)
    modifies buffer
    ensures n == |Squeeze(s, first)|
    ensures buffer[start + first..start + first + n] == Squeeze(s, first)
    ensures forall k :: 0 <= k < buffer.Length && !(start + first <= k < start + first + n) ==> buffer[k] == old(buffer[k])
  {
    hide Squeeze;
    var p, at := first, start + first;
    n := 0;
    ghost var total := Squeeze(s, first);
    while buffer[start + p] != NUL
      invariant first + n <= p <= |s| && n <= |total|
      invariant Squeeze(s, p) == total[n..]
      invariant buffer[at..at + n] == total[..n]
      invariant Unread(buffer, start, p, s)
      invariant forall k :: 0 <= k < buffer.Length && !(at <= k < at + n) ==> buffer[k] == old(buffer[k])
      decreases |s| - p
    {
      assert At(s, p) == buffer[start + p];
      if IsWhiteSpace(buffer[start + p]) {
        var j := SkipWhiteSpace(buffer, start, p, s);
        assert At(s, j) == buffer[start + j];
        if buffer[start + j] == NUL {
          SqueezeEnd(s, p);
          break;
        }
        SqueezeSpace(s, p, j);
        NextOf(total, n);
        p := j;
        Store(buffer, at, n, ' ', total);
        n := n + 1;
      }
      SqueezeChar(s, p);
      NextOf(total, n);
      assert At(s, p) == buffer[start + p];
      Store(buffer, at, n, buffer[start + p], total);
      n, p := n + 1, p + 1;
    }
    assert At(s, p) == buffer[start + p];
    SqueezeEnd(s, p);
  }

  lemma SqueezeEnd(s: string, p: nat)
    requires p <= |s| && SkipWs(s, p) == |s|
    ensures Squeeze(s, p) == ""
  {
  }

  lemma SqueezeSpace(s: string, p: nat, j: nat)
    requires p < |s| && IsWhiteSpace(s[p]) && j == SkipWs(s, p) < |s|
    ensures Squeeze(s, p) != "" && Squeeze(s, p)[0] == ' ' && Squeeze(s, p)[1..] == Squeeze(s, j)
  {
    SqueezeSpaceFirst(s, p, j);
    hide *;
    SqueezeWordFirst(s, j);
    assert ([' ', s[j]] + Squeeze(s, j + 1))[1..] == [s[j]] + Squeeze(s, j + 1);
  }

  lemma SqueezeSpaceFirst(s: string, p: nat, j: nat)
    requires p < |s| && IsWhiteSpace(s[p]) && j == SkipWs(s, p) < |s|
    ensures Squeeze(s, p) == [' ', s[j]] + Squeeze(s, j + 1) && !IsWhiteSpace(s[j])
  {
    hide SkipWs;
  }

  lemma SqueezeWordFirst(s: string, p: nat)
    requires p < |s| && !IsWhiteSpace(s[p])
    ensures Squeeze(s, p) == [s[p]] + Squeeze(s, p + 1)
  {
  }

  lemma SqueezeChar(s: string, p: nat)
    requires p < |s| && !IsWhiteSpace(s[p])
    ensures Squeeze(s, p) != "" && Squeeze(s, p)[0] == s[p] && Squeeze(s, p)[1..] == Squeeze(s, p + 1)
  {
  }

  /** Returns the new start of the text; everything outside the old text is
      left alone. */
  method CollapseWhitespace(buffer: array<char>, start: nat, ghost s: string) returns (newStart: nat)
    requires start + |s| < buffer.Length && buffer[start + |s|] == NUL && NoNul(s)
    requires buffer[start..start + |s|] == s
    modifies buffer
    ensures start <= newStart && newStart + |Collapsed(s)| <= start + |s|
    ensures buffer[newStart..newStart + |Collapsed(s)|] == Collapsed(s)
    ensures buffer[newStart + |Collapsed(s)|] == NUL
    ensures forall k :: 0 <= k < buffer.Length && !(start <= k < start + |s|) ==> buffer[k] == old(buffer[k])
  {
    hide Words, Join, Squeeze;
    forall k | 0 <= k <= |s|
      ensures buffer[start + k] == At(s, k)
    {
      assert k < |s| ==> buffer[start..start + |s|][k] == buffer[start + k];
    }
    var first := SkipWhiteSpace(buffer, start, 0, s);
    newStart := start + first;
    assert At(s, first) == buffer[newStart];
    CollapsedFrom(s, first);
    if buffer[newStart] != NUL {
      var n := SqueezeInPlace(buffer, start, first, s);
      buffer[newStart + n] := NUL;
      assert buffer[newStart..newStart + n] == Collapsed(s);
    }
  }

  lemma CollapsedFrom(s: string, first: nat)
    requires first == SkipWs(s, 0)
    ensures first < |s| ==> Collapsed(s) == Squeeze(s, first)
    ensures first == |s| ==> Collapsed(s) == ""
  {
    WordsSkip(s, 0);
    SqueezeJoins(s, first);
  }
}
