/** Octets, C strings held in byte buffers, and the concatenation of byte lists. */
module Bytes {

  /** C's `uint8_t`, and a `char` seen through `(unsigned char)`. */
  type byte = x: int | 0 <= x < 256

  type bytes = seq<byte>

  const TWO_64: int := 0x1_0000_0000_0000_0000
  const TWO_32: int := 0x1_0000_0000

  datatype Option<+T> = None | Some(value: T)

  /** The bytes of a string literal; a character that is no byte, or NUL, is a `?`. */
  function Ascii(s: string): (b: bytes)
    ensures |b| == |s| && NulFree(b)
    ensures forall i :: 0 <= i < |s| ==> b[i] == CharByte(s[i])
  {
    seq(|s|, i requires 0 <= i < |s| => CharByte(s[i]))
  }

  function CharByte(c: char): (b: byte)
    ensures b != 0
  {
    if 0 < c as int < 256 then c as int else 63
  }

  /** A piece of text holds no NUL, so it survives the trip through a C string. */
  predicate NulFree(s: bytes) {
    forall i :: 0 <= i < |s| ==> s[i] != 0
  }

  /** The C string `s` starts at offset `at` of the buffer `b`. */
  ghost predicate StringAt(b: bytes, at: nat, s: bytes) {
    && at + |s| < |b|
    && b[at + |s|] == 0
    && forall i :: 0 <= i < |s| ==> b[at + i] == s[i] && s[i] != 0
  }

  /** What `strlen` and friends see of a buffer: everything before its first NUL. */
  function CString(b: bytes): (s: bytes)
    ensures s <= b && NulFree(s)
    ensures |s| < |b| ==> b[|s|] == 0
  {
    if b == [] || b[0] == 0 then [] else [b[0]] + CString(b[1..])
  }

  /** Nothing behind a terminator matters. */
  lemma {:induction false} CStringStops(s: bytes, rest: bytes)
    ensures CString(s + [0] + rest) == CString(s)
  {
    if s != [] {
      assert (s + [0] + rest)[1..] == s[1..] + [0] + rest;
      CStringStops(s[1..], rest);
    }
  }

  lemma {:induction false} CStringOfNulFree(s: bytes)
    requires NulFree(s)
    ensures CString(s) == s
  {
    if s != [] {
      CStringOfNulFree(s[1..]);
    }
  }

  lemma CStringOfTerminated(s: bytes, rest: bytes)
    requires NulFree(s)
    ensures CString(s + [0] + rest) == s
  {
    CStringStops(s, rest);
    CStringOfNulFree(s);
  }

  /** `StringAt` determines its string: it is the one C reads from that offset. */
  lemma StringAtIsCString(b: bytes, at: nat, s: bytes)
    requires StringAt(b, at, s)
    ensures CString(b[at..]) == s
  {
    assert b[at..] == s + [0] + b[at + |s| + 1..];
    CStringOfTerminated(s, b[at + |s| + 1..]);
  }

  function StartsWith(s: bytes, prefix: bytes): (r: bool)
    ensures r <==> prefix <= s
  {
    |prefix| <= |s| && s[..|prefix|] == prefix
  }

  function Min(a: int, b: int): (m: int)
    ensures m <= a && m <= b && (m == a || m == b)
  {
    if a <= b then a else b
  }

  lemma Regroup<T>(a: seq<T>, b: seq<T>, c: seq<T>)
    ensures (a + b) + c == a + (b + c)
  {
  }

  /** The concatenation of a list of byte strings. */
  function Flatten(parts: seq<bytes>): bytes {
    if parts == [] then [] else parts[0] + Flatten(parts[1..])
  }

  lemma {:induction false} FlattenAppend(parts: seq<bytes>, last: bytes)
    ensures Flatten(parts + [last]) == Flatten(parts) + last
  {
    if parts == [] {
      assert parts + [last] == [last];
      assert Flatten([last]) == last + Flatten([]);
    } else {
      assert (parts + [last])[1..] == parts[1..] + [last];
      FlattenAppend(parts[1..], last);
    }
  }

  /** What snprintf leaves of a text in a buffer of `max + 1` bytes. */
  function Truncated(s: bytes, max: nat): (t: bytes)
    ensures t <= s
  {
    s[..Min(|s|, max)]
  }

  const SPACE: byte := 32

  /** Parts with one space between them. */
  function Join(parts: seq<bytes>): bytes {
    if parts == [] then [] else if |parts| == 1 then parts[0] else parts[0] + [SPACE] + Join(parts[1..])
  }

  /** The text `part` stands in `s` at position `p`. */
  ghost predicate Occurs(s: bytes, p: nat, part: bytes) {
    p + |part| <= |s| && forall i :: 0 <= i < |part| ==> s[p + i] == part[i]
  }

  /** `strstr` finds the needle. */
  predicate Contains(s: bytes, needle: bytes) {
    StartsWith(s, needle) || (s != [] && Contains(s[1..], needle))
  }

  lemma StartsWithIsOccurs(s: bytes, needle: bytes)
    ensures StartsWith(s, needle) <==> Occurs(s, 0, needle)
  {
    if Occurs(s, 0, needle) {
      assert s[..|needle|] == needle;
    }
  }

  lemma OccursBehindFirst(s: bytes, i: nat, needle: bytes)
    requires s != []
    ensures Occurs(s[1..], i, needle) <==> Occurs(s, i + 1, needle)
  {
    assert forall k :: 0 <= k < |s[1..]| ==> s[1..][k] == s[k + 1];
  }

  lemma {:induction false} ContainsFindsEveryPlace(s: bytes, needle: bytes)
    ensures Contains(s, needle) <==> exists i :: 0 <= i <= |s| && Occurs(s, i, needle)
  {
    StartsWithIsOccurs(s, needle);
    if !StartsWith(s, needle) && s != [] {
      ContainsFindsEveryPlace(s[1..], needle);
      if Contains(s, needle) {
        var i :| 0 <= i <= |s[1..]| && Occurs(s[1..], i, needle);
        OccursBehindFirst(s, i, needle);
      } else {
        forall i | 0 < i <= |s|
          ensures !Occurs(s, i, needle)
        {
          OccursBehindFirst(s, i - 1, needle);
        }
      }
    }
  }

  lemma OccursAt(s: bytes, p: nat, part: bytes, i: nat)
    requires Occurs(s, p, part) && i < |part|
    ensures s[p + i] == part[i]
  {
  }

  lemma OccursSplit(s: bytes, p: nat, a: bytes, b: bytes)
    requires Occurs(s, p, a + b)
    ensures Occurs(s, p, a) && Occurs(s, p + |a|, b)
  {
    assert forall i :: 0 <= i < |a| ==> a[i] == (a + b)[i];
    assert forall i :: 0 <= i < |b| ==> b[i] == (a + b)[|a| + i];
  }

  lemma JoinSplit(part: bytes, rest: seq<bytes>)
    ensures rest == [] ==> Join([part] + rest) == part
    ensures rest != [] ==> Join([part] + rest) == part + ([SPACE] + Join(rest))
  {
    if rest != [] {
      assert ([part] + rest)[1..] == rest;
      Regroup(part, [SPACE], Join(rest));
    }
  }

  /** The joined list stands at the end of `s`, from position `p` on. */
  ghost predicate EndsWithJoin(s: bytes, p: nat, parts: seq<bytes>) {
    Occurs(s, p, Join(parts)) && |s| == p + |Join(parts)|
  }

  /** The second part of a joined list starts behind the first one and a space. */
  lemma JoinTail(s: bytes, p: nat, parts: seq<bytes>)
    requires |parts| > 1 && EndsWithJoin(s, p, parts)
    ensures Occurs(s, p, parts[0]) && p + |parts[0]| < |s| && s[p + |parts[0]|] == SPACE
    ensures EndsWithJoin(s, p + |parts[0]| + 1, parts[1..])
  {
    var part, rest := parts[0], parts[1..];
    assert parts == [part] + rest;
    JoinSplit(part, rest);
    OccursSplit(s, p, part, [SPACE] + Join(rest));
    OccursSplit(s, p + |part|, [SPACE], Join(rest));
    OccursAt(s, p + |part|, [SPACE], 0);
  }
}
