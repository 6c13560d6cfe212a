/** The printed sections while the user fills in the tokens, some or none of them. */
module Editing {
  import opened Bytes
  import opened Decimal
  import opened Discover
  import opened Profiles
  import Responses

  type Found = Responses.Found

  /** The token line, or the comment that is printed in its place. */
  function TokenLine(token: Option<bytes>): bytes {
    match token
    case Some(t) => KeyLine(Ascii("token"), InQuotes(t, []))
    case None => [HASH] + Ascii(" token = \"<paste the device token here>\"")
  }

  function Head(d: Found): seq<bytes> {
    [[], [OPEN] + d.instance + [CLOSE],
     KeyLine(Ascii("host"), InQuotes(d.ip, HostComment(d))), KeyLine(Ascii("port"), Digits(d.port))]
  }

  function TextLines(d: Found): seq<bytes> {
    if d.txt != [] then [[HASH, SPACE] + d.txt] else []
  }

  function EditedLines(d: Found, token: Option<bytes>): seq<bytes> {
    Head(d) + (TextLines(d) + [TokenLine(token)])
  }

  function Edited(devs: Devices, tokens: seq<Option<bytes>>): seq<bytes>
    requires |devs| == |tokens|
  {
    if devs == [] then [] else
    var n := |devs| - 1;
    Edited(devs[..n], tokens[..n]) + EditedLines(devs[n], tokens[n])
  }

  ghost predicate Writable(d: Found, token: Option<bytes>) {
    Printable(d, if token.Some? then token.value else [])
  }

  ghost predicate AllWritable(devs: Devices, tokens: seq<Option<bytes>>)
    requires |devs| == |tokens|
  {
    forall k :: 0 <= k < |devs| ==> Writable(devs[k], tokens[k])
  }

  /** The last section whose heading reads as this name and whose token is filled in. */
  function LastFilled(name: bytes, devs: Devices, tokens: seq<Option<bytes>>): (r: Option<nat>)
    requires |devs| == |tokens|
    ensures r.Some? ==> r.value < |devs| && Heading(devs[r.value]) == name && tokens[r.value].Some?
    ensures forall j :: (if r.None? then 0 else r.value + 1) <= j < |devs| && Heading(devs[j]) == name
              ==> tokens[j].None?
  {
    if devs == [] then None else
    var n := |devs| - 1;
    if Heading(devs[n]) == name && tokens[n].Some? then Some(n) else LastFilled(name, devs[..n], tokens[..n])
  }

  /** What a section does to the profile of a given name. */
  function AfterEdited(name: bytes, st: Profile, d: Found, token: Option<bytes>): Profile {
    if Heading(d) != name then st.(inSection := false)
    else Profile(true, Some(d.ip), d.port, if token.Some? then token else st.token)
  }

  lemma HeadIsRead(name: bytes, st: Profile, d: Found)
    requires Printable(d, [])
    ensures ReadLines(name, st, Head(d)) ==
            if Heading(d) == name then Profile(true, Some(d.ip), d.port, st.token) else st.(inSection := false)
  {
    hide ReadLine, KeyLine, InQuotes, HostComment;
    var h := Head(d);
    EmptyIsSkipped(name, st);
    HeadingIsRead(name, st, d.instance);
    var s1 := st.(inSection := Heading(d) == name);
    HostLineIsRead(name, s1, d);
    PortLineIsRead(name, if s1.inSection then s1.(host := Some(d.ip)) else s1, d.port);
    FourLines(name, st, h[0], h[1], h[2], h[3]);
  }

  lemma LastLinesAreRead(name: bytes, st: Profile, d: Found, token: Option<bytes>)
    requires Writable(d, token)
    ensures ReadLines(name, st, TextLines(d) + [TokenLine(token)])
            == if st.inSection && token.Some? then st.(token := token) else st
  {
    hide ReadLine, KeyLine, InQuotes;
    OneLine(name, st, TokenLine(token));
    match token {
      case Some(t) => TokenLineIsRead(name, st, t);
      case None => CommentIsSkipped(name, st, Ascii(" token = \"<paste the device token here>\""));
    }
    if d.txt != [] {
      assert [HASH, SPACE] + d.txt == [HASH] + ([SPACE] + d.txt);
      CommentIsSkipped(name, st, [SPACE] + d.txt);
      OneLine(name, st, [HASH, SPACE] + d.txt);
      ReadLinesAppend(name, st, TextLines(d), [TokenLine(token)]);
    } else {
      assert TextLines(d) + [TokenLine(token)] == [TokenLine(token)];
    }
  }

  lemma EditedIsRead(name: bytes, st: Profile, d: Found, token: Option<bytes>)
    requires Writable(d, token)
    ensures ReadLines(name, st, EditedLines(d, token)) == AfterEdited(name, st, d, token)
  {
    hide ReadLine;
    HeadIsRead(name, st, d);
    ReadLinesAppend(name, st, Head(d), TextLines(d) + [TokenLine(token)]);
    LastLinesAreRead(name, ReadLines(name, st, Head(d)), d, token);
  }

  ghost predicate Reads(name: bytes, devs: Devices, tokens: seq<Option<bytes>>, p: Profile)
    requires |devs| == |tokens|
  {
    && (match LastFilled(name, devs, tokens)
        case None => p.token == None
        case Some(k) => p.token == tokens[k])
    && match LastOf(name, devs)
       case None => p.host == None
       case Some(k) => p.host == Some(devs[k].ip) && p.port == devs[k].port
  }

  lemma NothingIsRead(name: bytes)
    ensures Reads(name, [], [], NO_PROFILE)
  {
  }

  lemma OneMoreReads(name: bytes, devs: Devices, tokens: seq<Option<bytes>>, st: Profile)
    requires 0 < |devs| == |tokens|
    requires Reads(name, devs[..|devs| - 1], tokens[..|devs| - 1], st)
    ensures Reads(name, devs, tokens, AfterEdited(name, st, devs[|devs| - 1], tokens[|devs| - 1]))
  {
  }

  lemma {:induction false} AllEditedAreRead(name: bytes, devs: Devices, tokens: seq<Option<bytes>>)
    requires |devs| == |tokens| && AllWritable(devs, tokens)
    ensures Reads(name, devs, tokens, ReadLines(name, NO_PROFILE, Edited(devs, tokens)))
    decreases |devs|
  {
    hide ReadLine, EditedLines, AfterEdited, Reads;
    if devs == [] {
      NothingIsRead(name);
    } else {
      var n := |devs| - 1;
      var st := ReadLines(name, NO_PROFILE, Edited(devs[..n], tokens[..n]));
      AllEditedAreRead(name, devs[..n], tokens[..n]);
      ReadLinesAppend(name, NO_PROFILE, Edited(devs[..n], tokens[..n]), EditedLines(devs[n], tokens[n]));
      EditedIsRead(name, st, devs[n], tokens[n]);
      OneMoreReads(name, devs, tokens, st);
    }
  }

  lemma EditedFits(d: Found, token: Option<bytes>)
    requires Writable(d, token)
    ensures AllFit(EditedLines(d, token))
  {
    hide Fits, KeyLine, InQuotes, HostComment;
    var t := if token.Some? then token.value else [];
    SectionFits(d, t);
    assert SectionLines(d, t) == (Head(d) + TextLines(d)) + [TokenLine(Some(t))];
    FrontFits(Head(d) + TextLines(d), [TokenLine(Some(t))]);
    TokenLineFits();
    AllFitTogether(Head(d) + TextLines(d), [TokenLine(token)]);
    Regroup(Head(d), TextLines(d), [TokenLine(token)]);
  }

  lemma FrontFits(a: seq<bytes>, b: seq<bytes>)
    requires AllFit(a + b)
    ensures AllFit(a) && AllFit(b)
  {
    hide Fits;
    assert forall k :: 0 <= k < |a| ==> (a + b)[k] == a[k];
    assert forall k :: 0 <= k < |b| ==> (a + b)[|a| + k] == b[k];
  }

  lemma TokenLineFits()
    ensures AllFit([TokenLine(None)])
  {
    var text := Ascii(" token = \"<paste the device token here>\"");
    assert |text| == 40 && forall i :: 0 <= i < |text| ==> text[i] != LF;
    FitsTogether([HASH], 1, text, 40);
  }

  lemma {:induction false} AllEditedFit(devs: Devices, tokens: seq<Option<bytes>>)
    requires |devs| == |tokens| && AllWritable(devs, tokens)
    ensures AllFit(Edited(devs, tokens))
    decreases |devs|
  {
    if devs != [] {
      var n := |devs| - 1;
      AllEditedFit(devs[..n], tokens[..n]);
      EditedFits(devs[n], tokens[n]);
      AllFitTogether(Edited(devs[..n], tokens[..n]), EditedLines(devs[n], tokens[n]));
    }
  }

  /** What loads from the file while it is edited: the address and port of the last device
      whose heading reads as the name, with the last token filled in below such a heading,
      and nothing before there is one. */
  lemma EditedFileLoads(devs: Devices, tokens: seq<Option<bytes>>, comment: bytes, name: bytes)
    requires |devs| == |tokens| && AllWritable(devs, tokens) && Fits(comment, 500)
    ensures LoadProfile(name, Unlines([[HASH] + comment] + Edited(devs, tokens))) ==
            var last, filled := LastOf(name, devs), LastFilled(name, devs, tokens);
            if last.None? || filled.None? then None
            else Some(Loaded(devs[last.value].ip, devs[last.value].port, tokens[filled.value].value))
  {
    hide ReadLine, Edited, LastOf, LastFilled, Unlines, ReadAll;
    var first, rest := [HASH] + comment, Edited(devs, tokens);
    AllEditedFit(devs, tokens);
    FitsTogether([HASH], 1, comment, 500);
    assert AllFit([first]);
    AllFitTogether([first], rest);
    LinesAreRead(name, NO_PROFILE, [first] + rest);
    CommentIsSkipped(name, NO_PROFILE, comment);
    OneLine(name, NO_PROFILE, first);
    ReadLinesAppend(name, NO_PROFILE, [first], rest);
    AllEditedAreRead(name, devs, tokens);
  }

  /** As it is printed the file loads under no name. */
  lemma PrintedFileLoadsNothing(devs: Devices, tokens: seq<Option<bytes>>, comment: bytes, name: bytes)
    requires |devs| == |tokens| && AllWritable(devs, tokens) && Fits(comment, 500)
    requires forall k :: 0 <= k < |tokens| ==> tokens[k].None?
    ensures LoadProfile(name, Unlines([[HASH] + comment] + Edited(devs, tokens))) == None
  {
    EditedFileLoads(devs, tokens, comment, name);
  }

  /** A value written without quotes, by hand. */
  ghost predicate Bare(s: bytes) {
    && OnOneLine(s) && 0 < |s| <= 500 && s[0] != DQUOTE
    && !IsTrailing(s[0]) && !IsTrailing(s[|s| - 1])
  }

  lemma BareIsRead(name: bytes, st: Profile, key: bytes, value: bytes)
    requires KeyText(key) && Bare(value) && st.inSection && |key| <= 5
    ensures ReadLine(name, st, KeyLine(key, value)) == Assign(st, key, value) && Unquote(value) == value
  {
    KeyLineIsRead(name, st, key, value);
  }

  /** A section written by hand loads without quotes too, at port 9000 if it names none. */
  lemma HandWrittenLoads(name: bytes, host: bytes, token: bytes)
    requires OnOneLine(name) && CLOSE !in name && |name| <= 500 && Bare(host) && Bare(token)
    ensures LoadProfile(name, Unlines([[OPEN] + name + [CLOSE], KeyLine(Ascii("host"), host),
                                       KeyLine(Ascii("token"), token), []]))
            == Some(Loaded(host, 9000, token))
  {
    hide Unlines, ReadAll, KeyLine, ReadLine, Rstrip, Lstrip, CString;
    var a, b, c := [OPEN] + name + [CLOSE], KeyLine(Ascii("host"), host), KeyLine(Ascii("token"), token);
    KeysAreTexts();
    HandWrittenFits(name, host, token);
    LinesAreRead(name, NO_PROFILE, [a, b, c, []]);
    FourLines(name, NO_PROFILE, a, b, c, []);
    HeadingIsRead(name, NO_PROFILE, name);
    var s1 := NO_PROFILE.(inSection := true);
    BareIsRead(name, s1, Ascii("host"), host);
    BareIsRead(name, s1.(host := Some(host)), Ascii("token"), token);
    EmptyIsSkipped(name, s1.(host := Some(host), token := Some(token)));
  }

  lemma HandWrittenFits(name: bytes, host: bytes, token: bytes)
    requires OnOneLine(name) && |name| <= 500 && Bare(host) && Bare(token)
    ensures AllFit([[OPEN] + name + [CLOSE], KeyLine(Ascii("host"), host), KeyLine(Ascii("token"), token), []])
  {
    KeysFit();
    FitsTogether([OPEN], 1, name, 500);
    FitsTogether([OPEN] + name, 501, [CLOSE], 1);
    KeyLineFits(Ascii("host"), host, 500);
    KeyLineFits(Ascii("token"), token, 500);
  }
}
