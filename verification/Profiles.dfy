/** The profile file: what profile_load of tools/esp-ctl/src/profile.c reads from it. */
module Profiles {
  import opened Bytes
  import opened Decimal

  const LF: byte := 10
  const CR: byte := 13
  const TAB: byte := 9
  const DQUOTE: byte := 34
  const HASH: byte := 35
  const EQUALS: byte := 61
  const OPEN: byte := 91
  const CLOSE: byte := 93
  const LINE_MAX := 1023
  const DEFAULT_PORT := 9000

  predicate IsTrailing(c: byte) {
    c == LF || c == CR || c == SPACE || c == TAB
  }

  predicate IsBlank(c: byte) {
    c == SPACE || c == TAB
  }

  function Rstrip(s: bytes): (r: bytes)
    ensures r <= s && (r != [] ==> !IsTrailing(r[|r| - 1]))
  {
    if s != [] && IsTrailing(s[|s| - 1]) then Rstrip(s[..|s| - 1]) else s
  }

  function Lstrip(s: bytes): (r: bytes)
    ensures |r| <= |s| && (r != [] ==> !IsBlank(r[0]))
  {
    if s != [] && IsBlank(s[0]) then Lstrip(s[1..]) else s
  }

  /** The text before the first `c`, as `strchr` and a NUL cut it off. */
  function Before(s: bytes, c: byte): (r: bytes)
    ensures r <= s && c !in r && (|r| < |s| ==> s[|r|] == c)
  {
    if s == [] || s[0] == c then [] else [s[0]] + Before(s[1..], c)
  }

  /** unquote: the text between the first two quotes, whatever follows; or all of it. */
  function Unquote(s: bytes): bytes {
    var t := Lstrip(s);
    if t != [] && t[0] == DQUOTE then Before(t[1..], DQUOTE) else t
  }

  /** What has been read; `inSection` is the section flag. */
  datatype Profile = Profile(inSection: bool, host: Option<bytes>, port: int, token: Option<bytes>)

  const NO_PROFILE := Profile(false, None, DEFAULT_PORT, None)

  /** One line of the file. */
  function ReadLine(name: bytes, st: Profile, line: bytes): Profile {
    var p := Lstrip(Rstrip(CString(line)));
    if p == [] || p[0] == HASH then
      st
    else if p[0] == OPEN then
      var e := Before(p, CLOSE);
      if |e| == |p| then st else st.(inSection := e[1..] == name)
    else if !st.inSection then
      st
    else
      var k := Before(p, EQUALS);
      if |k| == |p| then st else Assign(st, Rstrip(k), Lstrip(p[|k| + 1..]))
  }

  function Assign(st: Profile, key: bytes, value: bytes): Profile {
    if key == Ascii("host") then st.(host := Some(Unquote(value)))
    else if key == Ascii("port") then st.(port := Atoi(value))
    else if key == Ascii("token") then st.(token := Some(Unquote(value)))
    else st
  }

  /** The length of the piece that fgets takes off a text: a line with its newline,
      or as much as fits. */
  function FgetsLength(s: bytes, max: nat): (n: nat)
    requires s != [] && 0 < max
    ensures 0 < n <= |s| && n <= max
  {
    if s[0] == LF || |s| == 1 || max == 1 then 1 else 1 + FgetsLength(s[1..], max - 1)
  }

  function ReadAll(name: bytes, st: Profile, file: bytes): Profile
    decreases |file|
  {
    if file == [] then st else
    var n := FgetsLength(file, LINE_MAX);
    ReadAll(name, ReadLine(name, st, file[..n]), file[n..])
  }

  datatype Loaded = Loaded(host: bytes, port: int, token: bytes)

  /** profile_load on the contents of the file. */
  function LoadProfile(name: bytes, file: bytes): Option<Loaded> {
    var p := ReadAll(name, NO_PROFILE, file);
    if p.host.None? || p.token.None? then None else Some(Loaded(p.host.value, p.port, p.token.value))
  }

  /** A newline can only end what fgets takes. */
  lemma {:induction false} NewlineEndsPiece(s: bytes, max: nat)
    requires s != [] && 0 < max
    ensures LF !in s[..FgetsLength(s, max) - 1]
    decreases max
  {
    if s[0] != LF && |s| > 1 && max > 1 {
      NewlineEndsPiece(s[1..], max - 1);
      var n := FgetsLength(s[1..], max - 1);
      assert s[..n] == [s[0]] + s[1..][..n - 1];
    }
  }

  lemma StrippedHasNoNewline(line: bytes)
    requires line == [] || LF !in line[..|line| - 1]
    ensures LF !in Lstrip(Rstrip(CString(line)))
  {
    var r := Rstrip(CString(line));
    forall i | 0 <= i < |r|
      ensures r[i] != LF
    {
      assert i < |line| - 1 ==> line[..|line| - 1][i] == line[i];
    }
    LstripTakes(r);
  }

  lemma {:induction false} LstripTakes(s: bytes)
    ensures forall c :: c in Lstrip(s) ==> c in s
    decreases |s|
  {
    if s != [] && IsBlank(s[0]) {
      LstripTakes(s[1..]);
      assert forall c :: c in s[1..] ==> c in s;
    }
  }

  lemma IsNoHeading(name: bytes, st: Profile, line: bytes)
    requires (CLOSE in name || LF in name) && !st.inSection && (line == [] || LF !in line[..|line| - 1])
    ensures ReadLine(name, st, line) == st
  {
    var p := Lstrip(Rstrip(CString(line)));
    StrippedHasNoNewline(line);
    if p != [] && p[0] == OPEN {
      var e := Before(p, CLOSE);
      assert e != [] && CLOSE !in e[1..] && LF !in e[1..];
    }
  }

  lemma {:induction false} IsNeverEntered(name: bytes, st: Profile, file: bytes)
    requires (CLOSE in name || LF in name) && !st.inSection
    ensures ReadAll(name, st, file) == st
    decreases |file|
  {
    if file != [] {
      var n := FgetsLength(file, LINE_MAX);
      NewlineEndsPiece(file, LINE_MAX);
      assert file[..n][..n - 1] == file[..n - 1];
      IsNoHeading(name, st, file[..n]);
      IsNeverEntered(name, st, file[n..]);
    }
  }

  /** A heading ends at its first `]` and at the end of its line: no file at all can
      define a profile whose name holds a `]` or a newline, although discovery prints
      such names. */
  lemma SomeNamesNeverLoad(name: bytes, file: bytes)
    requires CLOSE in name || LF in name
    ensures LoadProfile(name, file) == None
  {
    IsNeverEntered(name, NO_PROFILE, file);
  }

  /** fgets: the next piece of the file, with a NUL behind it. */
  method Fgets(line: array<byte>, rest: bytes) returns (n: nat)
    requires rest != [] && line.Length == LINE_MAX + 1
    modifies line
    ensures n == FgetsLength(rest, LINE_MAX) && CString(line[..]) == CString(rest[..n])
  {
    n := FgetsLength(rest, LINE_MAX);
    forall i | 0 <= i < n {
      line[i] := rest[i];
    }
    line[n] := 0;
    assert line[..] == rest[..n] + [0] + line[n + 1..];
    CStringStops(rest[..n], line[n + 1..]);
  }

  method Strlen(s: array<byte>) returns (n: nat)
    requires |CString(s[..])| < s.Length
    ensures n == |CString(s[..])| < s.Length && s[n] == 0
    ensures forall i :: 0 <= i < n ==> s[i] == CString(s[..])[i]
  {
    n := |CString(s[..])|;
    assert s[..][n] == 0;
    assert CString(s[..]) == s[..][..n];
  }

  lemma RstripShorter(s: bytes, n: nat)
    requires 0 < n <= |s| && IsTrailing(s[n - 1])
    ensures Rstrip(s[..n]) == Rstrip(s[..n - 1])
  {
    assert s[..n][..n - 1] == s[..n - 1];
  }

  /** rstrip in place: NULs over trailing white space, from the right. */
  method RstripInPlace(s: array<byte>)
    requires |CString(s[..])| < s.Length
    modifies s
    ensures CString(s[..]) == Rstrip(old(CString(s[..])))
  {
    ghost var text := CString(s[..]);
    var n := Strlen(s);
    assert text[..n] == text;
    while n > 0 && IsTrailing(s[n - 1])
      invariant n <= |text| < s.Length && s[n] == 0
      invariant forall i :: 0 <= i < n ==> s[i] == text[i]
      invariant Rstrip(text[..n]) == Rstrip(text)
    {
      RstripShorter(text, n);
      n := n - 1;
      s[n] := 0;
    }
    assert Rstrip(text[..n]) == text[..n];
    StringAtIsCString(s[..], 0, text[..n]);
    assert s[..][0..] == s[..];
  }

  /** The reading loop of profile_load, over a profile it updates line by line. */
  class Reader {
    var state: Profile

    constructor ()
      ensures state == NO_PROFILE
    {
      state := NO_PROFILE;
    }

    /** One line, stripped in place and then taken apart. */
    method Feed(name: bytes, line: array<byte>, ghost text: bytes)
      requires |CString(line[..])| < line.Length && CString(line[..]) == CString(text)
      modifies this, line
      ensures state == ReadLine(name, old(state), text)
    {
      RstripInPlace(line);
      var p := Lstrip(CString(line[..]));
      if |p| == 0 || p[0] == HASH {
        return;
      }
      if p[0] == OPEN {
        var e := Before(p, CLOSE);
        if |e| < |p| {
          state := state.(inSection := e[1..] == name);
        }
        return;
      }
      if !state.inSection {
        return;
      }
      var k := Before(p, EQUALS);
      if |k| < |p| {
        state := Assign(state, Rstrip(k), Lstrip(p[|k| + 1..]));
      }
    }

    /** profile_load behind the opening of the file. */
    method Load(name: bytes, file: bytes) returns (r: Option<Loaded>)
      requires state == NO_PROFILE
      modifies this
      ensures r == LoadProfile(name, file)
    {
      var line := new byte[LINE_MAX + 1];
      var rest := file;
      while rest != []
        invariant ReadAll(name, state, rest) == ReadAll(name, NO_PROFILE, file)
        decreases |rest|
      {
        var n := Fgets(line, rest);
        Feed(name, line, rest[..n]);
        rest := rest[n..];
      }
      if state.host.None? || state.token.None? {
        return None;
      }
      r := Some(Loaded(state.host.value, state.port, state.token.value));
    }
  }
}
