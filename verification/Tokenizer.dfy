/** The in-place command-line tokeniser of components/core/src/cmd.c, against a
    specification that reads an unchanging text. */
module Tokenizer {
  import opened Bytes

  const QUOTE: byte := 34
  const BACKSLASH: byte := 92

  /** `isspace` in the C locale. */
  predicate IsSpace(c: byte) {
    c == SPACE || 9 <= c <= 13
  }

  predicate Escapable(c: byte) {
    c == QUOTE || c == BACKSLASH
  }

  /** One token of a text, and the position to go on reading from. */
  datatype Piece = Piece(token: bytes, next: nat)

  function SkipSpace(s: bytes, p: nat): (q: nat)
    requires p <= |s|
    ensures p <= q <= |s| && (q < |s| ==> !IsSpace(s[q]))
    decreases |s| - p
  {
    if p < |s| && IsSpace(s[p]) then SkipSpace(s, p + 1) else p
  }

  /** Is the byte at `p` a backslash that escapes the byte behind it? */
  predicate Escape(s: bytes, p: nat)
    requires p < |s|
  {
    s[p] == BACKSLASH && p + 1 < |s| && Escapable(s[p + 1])
  }

  /** The quoted argument whose opening quote lies just before `p`. */
  function Quoted(s: bytes, p: nat): (r: Piece)
    requires p <= |s|
    ensures p + |r.token| <= r.next <= |s|
    ensures p + |r.token| < r.next || r.next == |s|
    decreases |s| - p
  {
    if p == |s| then
      Piece([], p)
    else if s[p] == QUOTE then
      Piece([], p + 1)
    else
      var q := if Escape(s, p) then p + 1 else p;
      var r := Quoted(s, q + 1);
      Piece([s[q]] + r.token, r.next)
  }

  /** The unquoted argument at `p`; one white-space byte behind it is consumed too. */
  function Plain(s: bytes, p: nat): (r: Piece)
    requires p <= |s|
    ensures p + |r.token| <= r.next <= |s|
    ensures p + |r.token| < r.next || r.next == |s|
    decreases |s| - p
  {
    if p == |s| then
      Piece([], p)
    else if IsSpace(s[p]) then
      Piece([], p + 1)
    else
      var r := Plain(s, p + 1);
      Piece([s[p]] + r.token, r.next)
  }

  /** The argument that starts at `p`, where no white space stands. */
  function Next(s: bytes, p: nat): (r: Piece)
    requires p < |s| && !IsSpace(s[p])
    ensures p < r.next <= |s|
  {
    if s[p] == QUOTE then Quoted(s, p + 1) else Plain(s, p)
  }

  /** The first `max` tokens of a text, from position `p` on. */
  function Tokens(s: bytes, p: nat, max: nat): (ts: seq<bytes>)
    requires p <= |s|
    ensures |ts| <= max
    decreases |s| - p
  {
    var q := SkipSpace(s, p);
    if max == 0 || q == |s| then
      []
    else
      var r := Next(s, q);
      [r.token] + Tokens(s, r.next, max - 1)
  }

  lemma {:induction false} QuotedNulFree(s: bytes, p: nat)
    requires p <= |s| && NulFree(s)
    ensures NulFree(Quoted(s, p).token)
    decreases |s| - p
  {
    if p < |s| && s[p] != QUOTE {
      QuotedNulFree(s, (if Escape(s, p) then p + 1 else p) + 1);
    }
  }

  lemma Uncons(s: bytes, k: nat, c: byte, rest: bytes)
    requires k <= |s| && s[k..] == [c] + rest
    ensures k < |s| && s[k] == c && s[k + 1..] == rest
  {
    assert s[k..][0] == c;
    assert s[k + 1..] == s[k..][1..];
  }

  /** The buffer still holds `text` and its terminator from offset `p` on. */
  ghost predicate Unread(line: array<byte>, text: bytes, p: nat)
    reads line
  {
    && p <= |text| < line.Length
    && line[|text|] == 0
    && forall i :: p <= i < |text| ==> line[i] == text[i]
  }

  /** `done` has been written to the buffer from offset `start` on. */
  ghost predicate Copied(line: array<byte>, start: nat, done: bytes)
    reads line
  {
    && start + |done| <= line.Length
    && forall i :: 0 <= i < |done| ==> line[start + i] == done[i] && done[i] != 0
  }

  /** The frame of every read: nothing before `lo` and nothing from `hi` on changes. */
  twostate predicate OnlyWithin(line: array<byte>, lo: nat, hi: nat)
    reads line
  {
    forall i :: 0 <= i < line.Length && !(lo <= i < hi) ==> line[i] == old(line[i])
  }

  /** The copying loop of a quoted argument, which moves its unescaped bytes to
      the left: `w` never overtakes `p`. */
  method Unescape(line: array<byte>, start: nat, ghost text: bytes) returns (w: nat, p: nat)
    requires NulFree(text) && Unread(line, text, start)
    modifies line
    ensures start <= w <= p && Unread(line, text, p)
    ensures Copied(line, start, Quoted(text, start).token) && w == start + |Quoted(text, start).token|
    ensures Quoted(text, start).next == if p < |text| then p + 1 else p
    ensures p < |text| ==> text[p] == QUOTE
    ensures OnlyWithin(line, start, p)
  {
    w, p := start, start;
    ghost var tok, n := Quoted(text, start).token, 0;
    QuotedNulFree(text, start);
    while line[p] != 0 && line[p] != QUOTE
      invariant w == start + n <= p && n <= |tok| && Unread(line, text, p)
      invariant forall i :: 0 <= i < n ==> line[start + i] == tok[i]
      invariant Quoted(text, p) == Piece(tok[n..], Quoted(text, start).next)
      invariant OnlyWithin(line, start, p)
      decreases |text| - p
    {
      if line[p] == BACKSLASH && (line[p + 1] == QUOTE || line[p + 1] == BACKSLASH) {
        p := p + 1;
      }
      Uncons(tok, n, text[p], Quoted(text, p + 1).token);
      line[w] := line[p];
      n, w, p := n + 1, w + 1, p + 1;
    }
  }

  /** Reads a quoted argument from just behind its opening quote and cuts it off
      with a NUL. */
  method ReadQuoted(line: array<byte>, start: nat, ghost text: bytes) returns (p: nat)
    requires NulFree(text) && Unread(line, text, start)
    modifies line
    ensures p == Quoted(text, start).next && Unread(line, text, p)
    ensures StringAt(line[..], start, Quoted(text, start).token)
    ensures OnlyWithin(line, start, p)
  {
    var w;
    w, p := Unescape(line, start, text);
    if line[p] == QUOTE {
      p := p + 1;
    }
    line[w] := 0;
  }

  /** Reads an unquoted argument and cuts it off with a NUL, in place of the
      white-space byte behind it when there is one. */
  method ReadPlain(line: array<byte>, start: nat, ghost text: bytes) returns (p: nat)
    requires NulFree(text) && Unread(line, text, start)
    modifies line
    ensures p == Plain(text, start).next && Unread(line, text, p)
    ensures StringAt(line[..], start, Plain(text, start).token)
    ensures OnlyWithin(line, start, p)
  {
    p := start;
    ghost var whole := Plain(text, start);
    ghost var done: bytes := [];
    while line[p] != 0 && !IsSpace(line[p])
      invariant p == start + |done| <= |text|
      invariant Copied(line, start, done)
      invariant Piece(done + Plain(text, p).token, Plain(text, p).next) == whole
      decreases |text| - p
      modifies {}
    {
      Regroup(done, [text[p]], Plain(text, p + 1).token);
      done := done + [text[p]];
      p := p + 1;
    }
    if line[p] != 0 {
      line[p] := 0;
      p := p + 1;
    }
  }

  /** `argv` points at the tokens `toks`, one behind the other and none of them
      reaching past `end`. */
  ghost predicate Points(b: bytes, argv: seq<nat>, toks: seq<bytes>, end: nat) {
    && |argv| == |toks|
    && (forall k :: 0 <= k < |argv| ==> StringAt(b, argv[k], toks[k]) && argv[k] + |toks[k]| <= end)
    && (forall k, m :: 0 <= k < m < |argv| ==> argv[k] + |toks[k]| < argv[m])
  }

  /** Every token found so far ends, with its terminator, before `p`. */
  ghost predicate Behind(argv: seq<nat>, toks: seq<bytes>, p: nat)
    requires |argv| == |toks|
  {
    forall k :: 0 <= k < |argv| ==> argv[k] + |toks[k]| < p
  }

  lemma PointsAppend(b: bytes, b': bytes, argv: seq<nat>, toks: seq<bytes>, at: nat, tok: bytes, end: nat)
    requires Points(b, argv, toks, end) && Behind(argv, toks, at)
    requires |b| == |b'| && forall i :: 0 <= i < at && i < |b| ==> b'[i] == b[i]
    requires StringAt(b', at, tok) && at + |tok| <= end
    ensures Points(b', argv + [at], toks + [tok], end)
  {
    forall k | 0 <= k < |argv|
      ensures StringAt(b', argv[k], toks[k])
    {
      assert StringAt(b, argv[k], toks[k]);
    }
  }

  /** Reads the argument at `start`, quoted or not. */
  method ReadArgument(line: array<byte>, start: nat, ghost text: bytes) returns (at: nat, p: nat)
    requires NulFree(text) && Unread(line, text, start) && start < |text| && !IsSpace(text[start])
    modifies line
    ensures at == if text[start] == QUOTE then start + 1 else start
    ensures p == Next(text, start).next && Unread(line, text, p)
    ensures StringAt(line[..], at, Next(text, start).token)
    ensures OnlyWithin(line, at, p)
    ensures at + |Next(text, start).token| < p || p == |text|
    ensures at + |Next(text, start).token| <= |text|
  {
    if line[start] == QUOTE {
      at := start + 1;
      p := ReadQuoted(line, at, text);
    } else {
      at := start;
      p := ReadPlain(line, at, text);
    }
  }

  /** Moves to the next byte that is not white space. */
  method SkipWhite(line: array<byte>, start: nat, ghost text: bytes) returns (p: nat)
    requires NulFree(text) && Unread(line, text, start)
    ensures p == SkipSpace(text, start)
  {
    p := start;
    while line[p] != 0 && IsSpace(line[p])
      invariant start <= p <= |text|
      invariant SkipSpace(text, p) == SkipSpace(text, start)
      decreases |text| - p
    {
      p := p + 1;
    }
  }

  /** One turn of the tokeniser's loop, behind the white space. */
  method Advance(line: array<byte>, start: nat, argv: seq<nat>, ghost text: bytes, ghost toks: seq<bytes>)
    returns (argv': seq<nat>, p: nat)
    requires NulFree(text) && Unread(line, text, start) && start < |text| && !IsSpace(text[start])
    requires Points(line[..], argv, toks, |text|) && Behind(argv, toks, start)
    modifies line
    ensures p == Next(text, start).next && Unread(line, text, p)
    ensures Points(line[..], argv', toks + [Next(text, start).token], |text|)
    ensures p < |text| ==> Behind(argv', toks + [Next(text, start).token], p)
    ensures OnlyWithin(line, start, p) && |argv'| == |argv| + 1
  {
    ghost var before := line[..];
    var at;
    at, p := ReadArgument(line, start, text);
    PointsAppend(before, line[..], argv, toks, at, Next(text, start).token, |text|);
    argv' := argv + [at];
  }

  lemma TokensStep(text: bytes, p: nat, max: nat)
    requires p <= |text| && 0 < max
    ensures var q := SkipSpace(text, p);
            Tokens(text, p, max) ==
            if q == |text| then [] else [Next(text, q).token] + Tokens(text, Next(text, q).next, max - 1)
  {
  }

  lemma TokensAt(text: bytes, p: nat, max: nat)
    requires p < |text| && !IsSpace(text[p]) && 0 < max
    ensures Tokens(text, p, max) == [Next(text, p).token] + Tokens(text, Next(text, p).next, max - 1)
  {
    TokensStep(text, p, max);
  }

  /** The tokeniser of cmd.c. The text is everything before the first NUL. */
  method Tokenize(line: array<byte>, maxArgv: nat, ghost text: bytes) returns (argv: seq<nat>)
    requires NulFree(text) && Unread(line, text, 0)
    modifies line
    ensures Points(line[..], argv, Tokens(text, 0, maxArgv), |text|)
    ensures OnlyWithin(line, 0, |text|)
  {
    ghost var toks, all: seq<bytes> := [], Tokens(text, 0, maxArgv);
    argv := [];
    var p := 0;
    assert [] + all == all;
    while line[p] != 0 && |argv| < maxArgv
      invariant Unread(line, text, p)
      invariant Points(line[..], argv, toks, |text|) && (p < |text| ==> Behind(argv, toks, p))
      invariant |argv| <= maxArgv && toks + Tokens(text, p, maxArgv - |argv|) == all
      invariant OnlyWithin(line, 0, |text|)
      decreases |text| - p
    {
      TokensStep(text, p, maxArgv - |argv|);
      p := SkipWhite(line, p, text);
      if line[p] == 0 {
        break;
      }
      ghost var r := Next(text, p);
      argv, p := Advance(line, p, argv, text, toks);
      Regroup(toks, [r.token], Tokens(text, p, maxArgv - |argv|));
      toks := toks + [r.token];
    }
    assert toks + [] == toks;
  }
}
