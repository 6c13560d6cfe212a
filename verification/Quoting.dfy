/** Writing command lines that the tokeniser reads back: quoted arguments, and
    the unquoted join of the client's `send` subcommand. */
module Quoting {
  import opened Bytes
  import opened Tokenizer

  function Escaped(a: bytes): (e: bytes) {
    if a == [] then [] else (if Escapable(a[0]) then [BACKSLASH, a[0]] else [a[0]]) + Escaped(a[1..])
  }

  function QuoteArgument(a: bytes): bytes {
    [QUOTE] + Escaped(a) + [QUOTE]
  }

  function QuoteAll(args: seq<bytes>): (qs: seq<bytes>)
    ensures |qs| == |args|
  {
    if args == [] then [] else [QuoteArgument(args[0])] + QuoteAll(args[1..])
  }

  lemma {:induction false} QuotedReadsEscaped(s: bytes, p: nat, a: bytes)
    requires Occurs(s, p, Escaped(a) + [QUOTE])
    ensures Quoted(s, p) == Piece(a, p + |Escaped(a)| + 1)
    decreases |a|
  {
    OccursSplit(s, p, Escaped(a), [QUOTE]);
    if a == [] {
      assert s[p + 0] == [QUOTE][0];
    } else {
      var head := if Escapable(a[0]) then [BACKSLASH, a[0]] else [a[0]];
      Regroup(head, Escaped(a[1..]), [QUOTE]);
      OccursSplit(s, p, head, Escaped(a[1..]) + [QUOTE]);
      assert s[p + 0] == head[0] && s[p + |head| - 1] == head[|head| - 1];
      QuotedReadsEscaped(s, p + |head|, a[1..]);
      assert a == [a[0]] + a[1..];
    }
  }

  lemma NextReadsQuoted(s: bytes, p: nat, a: bytes)
    requires Occurs(s, p, QuoteArgument(a))
    ensures p < |s| && s[p] == QUOTE
    ensures Next(s, p) == Piece(a, p + |QuoteArgument(a)|)
  {
    Regroup([QUOTE], Escaped(a), [QUOTE]);
    OccursSplit(s, p, [QUOTE], Escaped(a) + [QUOTE]);
    assert s[p + 0] == [QUOTE][0];
    QuotedReadsEscaped(s, p + 1, a);
  }

  lemma TokensBehindSpace(s: bytes, p: nat, max: nat)
    requires p < |s| && s[p] == SPACE
    ensures Tokens(s, p, max) == Tokens(s, p + 1, max)
  {
  }

  /** Once the first part has been read, the tokens of the others follow. */
  lemma TokensOfTail(s: bytes, p: nat, part: bytes, rest: seq<bytes>, next: nat, max: nat)
    requires EndsWithJoin(s, p, [part] + rest)
    requires if rest == [] then next == |s| else next == p + |part| || next == p + |part| + 1
    ensures Occurs(s, p, part) && next <= |s|
    ensures rest == [] ==> Tokens(s, next, max) == []
    ensures rest != [] ==> EndsWithJoin(s, p + |part| + 1, rest)
    ensures rest != [] ==> Tokens(s, next, max) == Tokens(s, p + |part| + 1, max)
  {
    JoinSplit(part, rest);
    if rest != [] {
      OccursSplit(s, p, part, [SPACE] + Join(rest));
      OccursSplit(s, p + |part|, [SPACE], Join(rest));
      assert s[p + |part| + 0] == [SPACE][0];
      if next == p + |part| {
        TokensBehindSpace(s, next, max);
      }
    }
  }

  lemma TakeFirst(args: seq<bytes>, max: nat)
    requires args != [] && 0 < max
    ensures args[..Min(max, |args|)] == [args[0]] + args[1..][..Min(max - 1, |args| - 1)]
  {
  }

  lemma QuotedHead(s: bytes, p: nat, a: bytes, rest: seq<bytes>, max: nat)
    requires EndsWithJoin(s, p, [QuoteArgument(a)] + rest) && 0 < max
    ensures var behind := p + |QuoteArgument(a)| + 1;
            && (rest == [] ==> Tokens(s, p, max) == [a])
            && (rest != [] ==>
                  && EndsWithJoin(s, behind, rest)
                  && Tokens(s, p, max) == [a] + Tokens(s, behind, max - 1))
  {
    hide Tokens, Join, Next;
    var part := QuoteArgument(a);
    JoinSplit(part, rest);
    TokensOfTail(s, p, part, rest, p + |part|, max - 1);
    NextReadsQuoted(s, p, a);
    TokensAt(s, p, max);
    assert [a] + [] == [a];
  }

  lemma {:induction false} TokensOfQuoted(s: bytes, p: nat, args: seq<bytes>, max: nat)
    requires EndsWithJoin(s, p, QuoteAll(args))
    ensures Tokens(s, p, max) == args[..Min(max, |args|)]
    decreases |args|
  {
    if args == [] {
    } else if max > 0 {
      QuotedHead(s, p, args[0], QuoteAll(args[1..]), max);
      if |args| > 1 {
        TokensOfQuoted(s, p + |QuoteArgument(args[0])| + 1, args[1..], max - 1);
      }
      TakeFirst(args, max);
    }
  }

  /** Any arguments, each quoted and escaped, come back as themselves. */
  lemma QuotingRoundTrip(args: seq<bytes>, max: nat)
    ensures Tokens(Join(QuoteAll(args)), 0, max) == args[..Min(max, |args|)]
    ensures |args| <= max ==> Tokens(Join(QuoteAll(args)), 0, max) == args
  {
    TokensOfQuoted(Join(QuoteAll(args)), 0, args, max);
  }

  lemma {:induction false} QuotingKeepsNulFree(args: seq<bytes>)
    requires forall a :: a in args ==> NulFree(a)
    ensures NulFree(Join(QuoteAll(args)))
  {
    if args != [] {
      EscapedNulFree(args[0]);
      QuotingKeepsNulFree(args[1..]);
      JoinSplit(QuoteArgument(args[0]), QuoteAll(args[1..]));
    }
  }

  lemma {:induction false} EscapedNulFree(a: bytes)
    requires NulFree(a)
    ensures NulFree(Escaped(a))
    decreases |a|
  {
    if a != [] {
      EscapedNulFree(a[1..]);
    }
  }

  /** The same through the in-place tokeniser: a buffer that holds quoted arguments, NUL
      free as C arguments are, ends up with argv pointing at exactly these arguments. */
  method TokenizeQuoted(line: array<byte>, maxArgv: nat, args: seq<bytes>) returns (argv: seq<nat>)
    requires forall a :: a in args ==> NulFree(a)
    requires StringAt(line[..], 0, Join(QuoteAll(args)))
    modifies line
    ensures Points(line[..], argv, args[..Min(maxArgv, |args|)], |Join(QuoteAll(args))|)
    ensures OnlyWithin(line, 0, |Join(QuoteAll(args))|)
  {
    QuotingKeepsNulFree(args);
    QuotingRoundTrip(args, maxArgv);
    argv := Tokenize(line, maxArgv, Join(QuoteAll(args)));
  }

  /** An argument that needs no quoting. */
  predicate PlainSafe(a: bytes) {
    a != [] && a[0] != QUOTE && forall i :: 0 <= i < |a| ==> !IsSpace(a[i])
  }

  ghost predicate AllSafe(args: seq<bytes>) {
    forall k :: 0 <= k < |args| ==> PlainSafe(args[k])
  }

  lemma {:induction false} PlainReadsSafe(s: bytes, p: nat, a: bytes)
    requires Occurs(s, p, a) && forall i :: 0 <= i < |a| ==> !IsSpace(a[i])
    requires p + |a| < |s| ==> IsSpace(s[p + |a|])
    ensures Plain(s, p) == Piece(a, if p + |a| < |s| then p + |a| + 1 else |s|)
    decreases |a|
  {
    if a == [] {
    } else {
      assert s[p + 0] == a[0];
      assert Occurs(s, p + 1, a[1..]) by {
        assert forall i :: 0 <= i < |a[1..]| ==> a[1..][i] == a[i + 1];
      }
      PlainReadsSafe(s, p + 1, a[1..]);
      assert a == [a[0]] + a[1..];
    }
  }

  lemma PlainPart(s: bytes, p: nat, a: bytes, rest: seq<bytes>)
    requires EndsWithJoin(s, p, [a] + rest) && PlainSafe(a)
    ensures p < |s| && s[p] == a[0] && Next(s, p) == Piece(a, if rest == [] then |s| else p + |a| + 1)
  {
    JoinSplit(a, rest);
    if rest != [] {
      OccursSplit(s, p, a, [SPACE] + Join(rest));
      OccursSplit(s, p + |a|, [SPACE], Join(rest));
      OccursAt(s, p + |a|, [SPACE], 0);
    }
    OccursAt(s, p, a, 0);
    PlainReadsSafe(s, p, a);
  }

  lemma PlainHead(s: bytes, p: nat, a: bytes, rest: seq<bytes>, max: nat)
    requires EndsWithJoin(s, p, [a] + rest) && PlainSafe(a) && 0 < max
    ensures rest == [] ==> Tokens(s, p, max) == [a]
    ensures rest != [] ==> EndsWithJoin(s, p + |a| + 1, rest)
    ensures rest != [] ==> Tokens(s, p, max) == [a] + Tokens(s, p + |a| + 1, max - 1)
  {
    PlainPart(s, p, a, rest);
    TokensOfTail(s, p, a, rest, if rest == [] then |s| else p + |a| + 1, max - 1);
    TokensAt(s, p, max);
    assert [a] + [] == [a];
  }

  lemma {:induction false} TokensOfPlain(s: bytes, p: nat, args: seq<bytes>, max: nat)
    requires EndsWithJoin(s, p, args) && AllSafe(args)
    ensures Tokens(s, p, max) == args[..Min(max, |args|)]
    decreases |args|
  {
    if args == [] {
    } else if max > 0 {
      assert args == [args[0]] + args[1..];
      PlainHead(s, p, args[0], args[1..], max);
      if |args| > 1 {
        TokensOfPlain(s, p + |args[0]| + 1, args[1..], max - 1);
      }
      TakeFirst(args, max);
    }
  }

  /** The bytes of all tokens together. */
  function Total(ts: seq<bytes>): nat {
    if ts == [] then 0 else |ts[0]| + Total(ts[1..])
  }

  lemma {:induction false} JoinLength(parts: seq<bytes>)
    requires parts != []
    ensures |Join(parts)| == Total(parts) + |parts| - 1
  {
    if |parts| > 1 {
      JoinLength(parts[1..]);
    } else {
      assert Total(parts) == |parts[0]| + Total([]);
    }
  }

  lemma {:induction false} PlainIsClean(s: bytes, p: nat)
    requires p <= |s|
    ensures var r := Plain(s, p);
            && r.next == Min(p + |r.token| + 1, |s|)
            && forall i :: 0 <= i < |r.token| ==> r.token[i] == s[p + i] && !IsSpace(r.token[i])
    ensures p < |s| && !IsSpace(s[p]) ==> Plain(s, p).token != []
    decreases |s| - p
  {
    if p < |s| && !IsSpace(s[p]) {
      PlainIsClean(s, p + 1);
      var t, u := Plain(s, p).token, Plain(s, p + 1).token;
      assert forall i :: 1 <= i < |t| ==> t[i] == u[i - 1];
    }
  }

  /** Each token and one separator between neighbours must be paid for with bytes
      of the text; only unquoted tokens can use up the text without loss. */
  lemma {:induction false} TokenBudget(s: bytes, p: nat, max: nat)
    requires p <= |s|
    ensures var ts := Tokens(s, p, max);
            ts != [] ==>
              && Total(ts) + |ts| - 1 <= |s| - p
              && (Total(ts) + |ts| - 1 == |s| - p ==> AllSafe(ts))
    decreases max
  {
    var ts := Tokens(s, p, max);
    if ts != [] {
      var q := SkipSpace(s, p);
      TokensStep(s, p, max);
      var r, rest := Next(s, q), ts[1..];
      assert ts == [r.token] + rest && rest == Tokens(s, r.next, max - 1);
      TokenBudget(s, r.next, max - 1);
      if rest != [] {
        assert r.next < |s|;
      }
      if s[q] != QUOTE {
        PlainIsClean(s, q);
        assert r.token[0] == s[q + 0];
        assert PlainSafe(r.token);
      }
    }
  }

  /** The client's unquoted join is read back exactly when no argument is empty,
      holds white space or starts with a quote. */
  lemma UnquotedRoundTrip(args: seq<bytes>, max: nat)
    requires |args| <= max
    ensures Tokens(Join(args), 0, max) == args <==> AllSafe(args)
  {
    if AllSafe(args) {
      TokensOfPlain(Join(args), 0, args, max);
    }
    if args != [] && Tokens(Join(args), 0, max) == args {
      JoinLength(args);
      TokenBudget(Join(args), 0, max);
    }
  }
}
