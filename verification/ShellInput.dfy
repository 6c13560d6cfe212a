/** Which of the lines typed into the shell are sent, told by their bytes. */
module ShellInput {
  import opened Bytes
  import opened Client

  ghost predicate AllEnds(s: bytes) {
    forall i :: 0 <= i < |s| ==> s[i] == 10 || s[i] == 13
  }

  /** The line is this text with line ends behind it, any number of them. */
  ghost predicate Carries(line: bytes, text: bytes) {
    && text <= line && AllEnds(line[|text|..])
    && (text != [] ==> text[|text| - 1] != 10 && text[|text| - 1] != 13)
  }

  /** `exit` and `quit` */
  predicate Leaves(text: bytes) {
    text == [101, 120, 105, 116] || text == [113, 117, 105, 116]
  }

  lemma WordsToLeave()
    ensures Ascii("exit") == [101, 120, 105, 116] && Ascii("quit") == [113, 117, 105, 116]
  {
  }

  lemma {:induction false} EndsAreStripped(line: bytes, text: bytes)
    requires Carries(line, text)
    ensures Stripped(line) == text
    decreases |line|
  {
    if |line| == |text| {
      assert line == text;
    } else {
      var shorter := line[..|line| - 1];
      assert line[|text|..][|line| - 1 - |text|] == line[|line| - 1];
      assert shorter[|text|..] == line[|text|..][..|line| - 1 - |text|];
      EndsAreStripped(shorter, text);
    }
  }

  /** Texts that keep the shell running. */
  ghost predicate Stays(lines: seq<bytes>, texts: seq<bytes>) {
    |lines| == |texts| && forall k :: 0 <= k < |texts| ==> Carries(lines[k], texts[k]) && !Leaves(texts[k])
  }

  lemma TypedFirst(lines: seq<bytes>, text: bytes)
    requires lines != [] && Carries(lines[0], text)
    ensures Typed(lines) ==
            if text == [] then Typed(lines[1..]) else if Leaves(text) then [] else [text] + Typed(lines[1..])
  {
    EndsAreStripped(lines[0], text);
    WordsToLeave();
  }

  function NotBlank(texts: seq<bytes>): seq<bytes> {
    if texts == [] then [] else
    var n := |texts| - 1;
    NotBlank(texts[..n]) + if texts[n] == [] then [] else [texts[n]]
  }

  lemma {:induction false} NotBlankFirst(texts: seq<bytes>)
    requires texts != []
    ensures NotBlank(texts) == (if texts[0] == [] then [] else [texts[0]]) + NotBlank(texts[1..])
    decreases |texts|
  {
    var n := |texts| - 1;
    if n > 0 {
      assert texts[..n][1..] == texts[1..][..n - 1];
      NotBlankFirst(texts[..n]);
    }
  }

  /** Blank lines are skipped, `exit` and `quit` end the shell whatever follows, and any
      other text is sent as it stands. */
  lemma {:induction false} TextsAreTyped(lines: seq<bytes>, texts: seq<bytes>, behind: seq<bytes>)
    requires Stays(lines, texts)
    requires behind == [] || exists text :: Carries(behind[0], text) && Leaves(text)
    ensures Typed(lines + behind) == NotBlank(texts)
    decreases |lines|
  {
    if lines == [] {
      assert lines + behind == behind;
      if behind != [] {
        var text :| Carries(behind[0], text) && Leaves(text);
        TypedFirst(behind, text);
      }
    } else {
      assert (lines + behind)[1..] == lines[1..] + behind;
      TextsAreTyped(lines[1..], texts[1..], behind);
      TypedFirst(lines + behind, texts[0]);
      NotBlankFirst(texts);
    }
  }
}
