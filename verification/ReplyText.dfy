/** The lines that report an outcome, byte by byte. */
module ReplyText {
  import opened Bytes
  import opened Client
  import opened Decimal
  import opened Dispatch
  import opened Tokenizer

  lemma Words()
    ensures Ascii("OK") == [79, 75] && Ascii("OK ") == [79, 75, 32] && Ascii(" ") == [32]
    ensures Ascii("ERR ") == [69, 82, 82, 32]
    ensures Ascii("handler failed") == [104, 97, 110, 100, 108, 101, 114, 32, 102, 97, 105, 108, 101, 100]
    ensures Ascii(" unknown command: ")
            == [32, 117, 110, 107, 110, 111, 119, 110, 32, 99, 111, 109, 109, 97, 110, 100, 58, 32]
  {
  }

  lemma NumberIsRead(n: int, rest: bytes)
    requires rest == [] || !IsDigit(rest[0])
    ensures Atoi(Signed(n) + rest) == n
  {
    if n >= 0 {
      PrintedIsRead(n, rest);
    } else {
      var s := Signed(n) + rest;
      assert s[0] == 45 && s[1..] == Digits(-n) + rest;
      LeadingDigits(-n);
      LeadingAppend(0, Digits(-n), rest);
    }
  }

  /** `OK`, a space and the payload, if there is any. */
  lemma SuccessByBytes(r: Outcome)
    requires r.ok
    ensures Report(r) == if r.payload == [] then [79, 75] else [79, 75, 32] + r.payload
  {
    Words();
  }

  /** `ERR`, the code, and the payload: the number behind the first space is the code,
      9 in place of 0, and behind it stand a space and the payload. */
  lemma FailureByBytes(r: Outcome) returns (number: bytes)
    requires !r.ok
    ensures Atoi(number) == (if r.code == 0 then 9 else r.code) && 32 !in number && number != []
    ensures Report(r) == [69, 82, 82, 32] + (number + ([32] + if r.payload != [] then r.payload else
              [104, 97, 110, 100, 108, 101, 114, 32, 102, 97, 105, 108, 101, 100]))
  {
    Words();
    number := Signed(if r.code == 0 then 9 else r.code);
    NumberIsRead(if r.code == 0 then 9 else r.code, []);
    assert number + [] == number;
    Regroup(number, [32], if r.payload != [] then r.payload else Ascii("handler failed"));
  }

  /** A blank line is answered `OK`, and a name that is not registered with code 1. */
  lemma OtherRepliesByBytes(table: seq<Entry>, toks: seq<bytes>, r: Outcome)
    requires toks == [] || forall i :: 0 <= i < |table| ==> table[i].name != toks[0]
    ensures Reply(table, toks, r) == if toks == [] then [79, 75] else
              [69, 82, 82, 32, 49] +
              ([32, 117, 110, 107, 110, 111, 119, 110, 32, 99, 111, 109, 109, 97, 110, 100, 58, 32] + toks[0])
  {
    Words();
    if toks != [] {
      assert Find(table, toks[0]).None?;
      assert Signed(1) == [49];
    }
  }

  /** The exit code: 3 without a reply, 4 for one that starts with `ERR `, otherwise 0. */
  lemma ExitCodeByBytes(reply: Option<bytes>)
    ensures ExitCode(reply) == match reply
                               case None => 3
                               case Some(s) => if 4 <= |s| && s[..4] == [69, 82, 82, 32] then 4 else 0
  {
    Words();
    if reply.Some? && 4 <= |reply.value| {
      var s := reply.value;
      assert s[..2][0] == s[0] && s[..4][0] == s[0];
    }
  }
}
