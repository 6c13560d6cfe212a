/** Which bytes of a command line end up in its tokens. */
module TokenText {
  import opened Bytes
  import opened Quoting
  import opened Tokenizer

  /** An argument as it can be written between quotes: a byte that is marked stands behind
      a backslash, the others stand for themselves. */
  function Spelled(a: bytes, marks: seq<bool>): bytes
    requires |marks| == |a|
  {
    if a == [] then [] else (if marks[0] then [92, a[0]] else [a[0]]) + Spelled(a[1..], marks[1..])
  }

  /** Only quotes and backslashes stand behind a backslash; a quote must; and a backslash
      that stands for itself has neither of the two behind it. */
  ghost predicate FineAt(a: bytes, marks: seq<bool>, i: nat)
    requires |marks| == |a| && i < |a|
  {
    if marks[i] then a[i] == 34 || a[i] == 92
    else a[i] != 34 && (a[i] == 92 ==> i + 1 < |a| && !marks[i + 1] && a[i + 1] != 92)
  }

  ghost predicate Spellable(a: bytes, marks: seq<bool>) {
    |marks| == |a| && forall i :: 0 <= i < |a| ==> FineAt(a, marks, i)
  }

  lemma SpellableTail(a: bytes, marks: seq<bool>)
    requires Spellable(a, marks) && a != []
    ensures FineAt(a, marks, 0) && Spellable(a[1..], marks[1..])
  {
    forall i | 0 <= i < |a| - 1
      ensures FineAt(a[1..], marks[1..], i)
    {
      assert FineAt(a, marks, i + 1);
    }
  }

  /** What is written first behind a backslash that stands for itself. */
  lemma SpelledHead(a: bytes, marks: seq<bool>)
    requires Spellable(a, marks) && a != [] && !marks[0] && a[0] == 92
    ensures |a| > 1 && a[1] != 92 && a[1] != 34
    ensures Spelled(a[1..], marks[1..]) != [] && Spelled(a[1..], marks[1..])[0] == a[1]
  {
    assert FineAt(a, marks, 0) && FineAt(a, marks, 1);
  }

  lemma {:induction false} SpelledIsRead(s: bytes, p: nat, a: bytes, marks: seq<bool>)
    requires Spellable(a, marks) && Occurs(s, p, Spelled(a, marks) + [34])
    ensures Quoted(s, p) == Piece(a, p + |Spelled(a, marks)| + 1)
    decreases |a|
  {
    OccursSplit(s, p, Spelled(a, marks), [34]);
    if a == [] {
      OccursAt(s, p, [34], 0);
    } else {
      var head := if marks[0] then [92, a[0]] else [a[0]];
      var rest := Spelled(a[1..], marks[1..]);
      SpellableTail(a, marks);
      Regroup(head, rest, [34]);
      OccursSplit(s, p, head, rest + [34]);
      OccursAt(s, p, head, 0);
      OccursAt(s, p, head, |head| - 1);
      if !marks[0] && a[0] == 92 {
        SpelledHead(a, marks);
        OccursAt(s, p + 1, rest + [34], 0);
      }
      SpelledIsRead(s, p + |head|, a[1..], marks[1..]);
      assert a == [a[0]] + a[1..];
    }
  }

  /** A quoted argument, however it is spelled: a backslash is dropped in front of a quote
      or another backslash, and every other byte is part of the token. */
  lemma QuotedTextIsRead(a: bytes, marks: seq<bool>, max: nat)
    requires Spellable(a, marks) && 0 < max
    ensures Tokens([34] + (Spelled(a, marks) + [34]), 0, max) == [a]
  {
    var s := [34] + (Spelled(a, marks) + [34]);
    assert Occurs(s, 0, s);
    OccursSplit(s, 0, [34], Spelled(a, marks) + [34]);
    SpelledIsRead(s, 1, a, marks);
    TokensAt(s, 0, max);
  }

  lemma {:induction false} Unmarked(a: bytes, marks: seq<bool>)
    requires |marks| == |a| && forall i :: 0 <= i < |a| ==> !marks[i]
    ensures Spelled(a, marks) == a
    decreases |a|
  {
    if a != [] {
      Unmarked(a[1..], marks[1..]);
      assert a == [a[0]] + a[1..];
    }
  }

  /** Reading goes on right behind the closing quote, whatever stands there. */
  lemma ReadingGoesOn(a: bytes, marks: seq<bool>, more: bytes, max: nat)
    requires Spellable(a, marks) && 0 < max
    ensures var s := [34] + (Spelled(a, marks) + [34]) + more;
            Tokens(s, 0, max) == [a] + Tokens(s, |Spelled(a, marks)| + 2, max - 1)
  {
    var text := Spelled(a, marks) + [34];
    var s := [34] + text + more;
    assert Occurs(s, 1, text);
    SpelledIsRead(s, 1, a, marks);
    TokensStep(s, 0, max);
  }

  /** No quote, and no backslash that is last or before another one. */
  predicate Ordinary(a: bytes, i: nat)
    requires i < |a|
  {
    a[i] != 34 && (a[i] == 92 ==> i + 1 < |a| && a[i + 1] != 92)
  }

  /** A text without quotes, in which no backslash comes last or before another one, is
      the token that it is in quotes: its backslashes stay. */
  lemma VerbatimIsRead(a: bytes, max: nat)
    requires 0 < max && forall i :: 0 <= i < |a| ==> Ordinary(a, i)
    ensures Tokens([34] + (a + [34]), 0, max) == [a]
  {
    var marks := seq(|a|, _ => false);
    Unmarked(a, marks);
    forall i | 0 <= i < |a|
      ensures FineAt(a, marks, i)
    {
      assert Ordinary(a, i);
    }
    QuotedTextIsRead(a, marks, max);
  }

  lemma {:induction false} OpenTextIsRead(s: bytes, p: nat)
    requires p <= |s| && forall i :: p <= i < |s| ==> Ordinary(s, i)
    ensures Quoted(s, p) == Piece(s[p..], |s|)
    decreases |s| - p
  {
    if p < |s| {
      assert Ordinary(s, p) && (p + 1 < |s| ==> Ordinary(s, p + 1));
      OpenTextIsRead(s, p + 1);
      assert s[p..] == [s[p]] + s[p + 1..];
    }
  }

  /** A quote that is never closed reaches to the end of the line. */
  lemma OpenQuoteIsRead(a: bytes, max: nat)
    requires 0 < max && forall i :: 0 <= i < |a| ==> Ordinary(a, i)
    ensures Tokens([34] + a, 0, max) == [a]
  {
    var s := [34] + a;
    forall i | 1 <= i < |s|
      ensures Ordinary(s, i)
    {
      assert Ordinary(a, i - 1);
    }
    assert s[1..] == a;
    OpenTextIsRead(s, 1);
    TokensAt(s, 0, max);
  }

  /** Blank, tab, newline, vertical tab, form feed, carriage return. */
  ghost predicate IsGap(g: bytes) {
    forall i :: 0 <= i < |g| ==> g[i] in {32, 9, 10, 11, 12, 13}
  }

  ghost predicate IsWord(w: bytes) {
    w != [] && w[0] != 34 && forall i :: 0 <= i < |w| ==> w[i] !in {32, 9, 10, 11, 12, 13}
  }

  /** Words with gaps in front, between and behind. */
  ghost predicate Words(words: seq<bytes>, gaps: seq<bytes>) {
    && |gaps| == |words| + 1
    && (forall k :: 0 <= k < |gaps| ==> IsGap(gaps[k])) && (forall k :: 0 < k < |words| ==> gaps[k] != [])
    && forall k :: 0 <= k < |words| ==> IsWord(words[k])
  }

  function Spaced(words: seq<bytes>, gaps: seq<bytes>): bytes
    requires |gaps| == |words| + 1
  {
    if words == [] then gaps[0] else gaps[0] + (words[0] + Spaced(words[1..], gaps[1..]))
  }

  lemma {:induction false} GapIsSkipped(s: bytes, p: nat, g: bytes, rest: bytes)
    requires p <= |s| && s[p..] == g + rest && IsGap(g) && (rest == [] || !IsSpace(rest[0]))
    ensures SkipSpace(s, p) == p + |g| <= |s| && s[p + |g|..] == rest
    decreases |g|
  {
    if g == [] {
      assert g + rest == rest;
      if rest != [] {
        assert s[p..][0] == s[p];
      }
    } else {
      assert s[p..][0] == s[p] == g[0] && s[p + 1..] == s[p..][1..] == g[1..] + rest;
      GapIsSkipped(s, p + 1, g[1..], rest);
    }
  }

  lemma WordsTail(words: seq<bytes>, gaps: seq<bytes>)
    requires Words(words, gaps) && words != []
    ensures Words(words[1..], gaps[1..])
    ensures |words| > 1 ==> gaps[1] != []
  {
    assert forall k :: 0 <= k < |gaps| - 1 ==> gaps[1..][k] == gaps[k + 1];
    assert forall k :: 0 <= k < |words| - 1 ==> words[1..][k] == words[k + 1];
  }

  /** What comes behind a word is the end or white space. */
  lemma SpacedStartsWithGap(words: seq<bytes>, gaps: seq<bytes>)
    requires Words(words, gaps) && (words == [] || gaps[0] != [])
    ensures var s := Spaced(words, gaps); s == [] || IsSpace(s[0])
  {
  }

  lemma FirstWord(s: bytes, p: nat, words: seq<bytes>, gaps: seq<bytes>) returns (q: nat)
    requires Words(words, gaps) && words != [] && p <= |s| && s[p..] == Spaced(words, gaps)
    ensures SkipSpace(s, p) == q < |s| && q + |words[0]| <= |s| && Words(words[1..], gaps[1..])
    ensures s[q + |words[0]|..] == Spaced(words[1..], gaps[1..]) && (words[1..] == [] || gaps[1..][0] != [])
    ensures Next(s, q) == Piece(words[0], if q + |words[0]| == |s| then |s| else q + |words[0]| + 1)
  {
    var w, tail := words[0], Spaced(words[1..], gaps[1..]);
    q := p + |gaps[0]|;
    WordsTail(words, gaps);
    SpacedStartsWithGap(words[1..], gaps[1..]);
    GapIsSkipped(s, p, gaps[0], w + tail);
    WordIsRead(s, q, w, tail);
  }

  lemma FirstToken(s: bytes, p: nat, words: seq<bytes>, gaps: seq<bytes>, max: nat) returns (e: nat)
    requires Words(words, gaps) && words != [] && p <= |s| && s[p..] == Spaced(words, gaps) && max > 0
    ensures e <= |s| && s[e..] == Spaced(words[1..], gaps[1..])
    ensures Words(words[1..], gaps[1..]) && (words[1..] == [] || gaps[1..][0] != [])
    ensures var next := if e == |s| then |s| else e + 1;
            Tokens(s, p, max) == [words[0]] + Tokens(s, next, max - 1)
  {
    hide *;
    var q := FirstWord(s, p, words, gaps);
    e := q + |words[0]|;
    TokensStep(s, p, max);
  }

  lemma {:induction false} WordsAreRead(s: bytes, p: nat, words: seq<bytes>, gaps: seq<bytes>, max: nat)
    requires Words(words, gaps) && p <= |s| && s[p..] == Spaced(words, gaps)
    ensures Tokens(s, p, max) == words[..Min(max, |words|)]
    decreases |words|, 0
  {
    if words == [] || max == 0 {
      NoWordsAreRead(s, p, words, gaps, max);
    } else {
      assert |gaps| == |words| + 1;
      hide *;
      var rest, m := words[1..], max - 1;
      var read := rest[..Min(m, |rest|)];
      assert words[..Min(max, |words|)] == [words[0]] + read by {
        TakeFirst(words, max);
      }
      var e := FirstToken(s, p, words, gaps, max);
      RestIsRead(s, e, rest, gaps[1..], m);
    }
  }

  lemma NoWordsAreRead(s: bytes, p: nat, words: seq<bytes>, gaps: seq<bytes>, max: nat)
    requires Words(words, gaps) && p <= |s| && s[p..] == Spaced(words, gaps) && (words == [] || max == 0)
    ensures Tokens(s, p, max) == [] == words[..Min(max, |words|)]
  {
    if words == [] {
      assert gaps[0] + [] == gaps[0];
      GapIsSkipped(s, p, gaps[0], []);
    }
  }

  lemma WordIsRead(s: bytes, q: nat, w: bytes, tail: bytes)
    requires q <= |s| && s[q..] == w + tail && IsWord(w) && (tail == [] || IsSpace(tail[0]))
    ensures q < |s| && !IsSpace(s[q]) && s[q + |w|..] == tail
    ensures Next(s, q) == Piece(w, if q + |w| == |s| then |s| else q + |w| + 1)
  {
    assert s[q..][0] == s[q];
    assert s[q + |w|..] == s[q..][|w|..] == tail;
    assert s[q..q + |w|] == s[q..][..|w|] == w;
    if tail != [] {
      assert s[q + |w|..][0] == s[q + |w|];
    }
    PlainReadsSafe(s, q, w);
  }

  /** The white-space byte behind a word is consumed with it, which makes no difference. */
  lemma {:induction false} RestIsRead(s: bytes, p: nat, words: seq<bytes>, gaps: seq<bytes>, max: nat)
    requires Words(words, gaps) && (words == [] || gaps[0] != []) && p <= |s| && s[p..] == Spaced(words, gaps)
    ensures var next := if p == |s| then |s| else p + 1;
            Tokens(s, next, max) == words[..Min(max, |words|)]
    decreases |words|, 1
  {
    SpacedStartsWithGap(words, gaps);
    if p == |s| {
      WordsAreRead(s, p, words, gaps, max);
    } else {
      var g := gaps[0];
      assert s[p..][0] == s[p];
      assert g != [];
      var gaps' := [g[1..]] + gaps[1..];
      assert s[p + 1..] == s[p..][1..];
      assert Spaced(words, gaps)[1..] == Spaced(words, gaps');
      WordsAreRead(s, p + 1, words, gaps', max);
    }
  }

  /** A line is split at white space, and nowhere else, outside quotes. */
  lemma WhiteSpaceSplits(words: seq<bytes>, gaps: seq<bytes>, max: nat)
    requires Words(words, gaps)
    ensures Tokens(Spaced(words, gaps), 0, max) == words[..Min(max, |words|)]
  {
    var s := Spaced(words, gaps);
    assert s[0..] == s;
    WordsAreRead(s, 0, words, gaps, max);
  }
}
