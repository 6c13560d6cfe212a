/** What strtoul and atoi make of a text, told by its bytes. */
module Numbers {
  import opened Bytes
  import opened Decimal

  ghost predicate AllDigits(s: bytes) {
    forall i :: 0 <= i < |s| ==> 48 <= s[i] <= 57
  }

  ghost predicate AllBlank(s: bytes) {
    forall i :: 0 <= i < |s| ==> s[i] in {32, 9, 10, 11, 12, 13}
  }

  /** The number that decimal digits stand for. */
  function ValueOf(digits: bytes): nat
    requires AllDigits(digits)
  {
    if digits == [] then 0 else
    var n := |digits| - 1;
    ValueOf(digits[..n]) * 10 + (digits[n] - 48)
  }

  /** A number in a text: blanks, at most one sign, digits, and what stops them. */
  datatype Spelling = Spelling(blanks: bytes, sign: bytes, digits: bytes, rest: bytes) {
    function Text(): bytes {
      blanks + (sign + (digits + rest))
    }

    ghost predicate Fine() {
      && AllBlank(blanks) && AllDigits(digits) && (rest == [] || !(48 <= rest[0] <= 57))
      && (sign == [] || sign == [43] || sign == [45])
      && (sign == [] && digits == [] && rest != [] ==> rest[0] !in {32, 9, 10, 11, 12, 13, 43, 45})
    }
  }

  lemma {:induction false} BlanksAreSkipped(blanks: bytes, rest: bytes)
    requires AllBlank(blanks) && (rest == [] || rest[0] !in {32, 9, 10, 11, 12, 13})
    ensures Blanks(blanks + rest) == rest
    decreases |blanks|
  {
    if blanks == [] {
      assert blanks + rest == rest;
    } else {
      assert (blanks + rest)[0] == blanks[0] && (blanks + rest)[1..] == blanks[1..] + rest;
      BlanksAreSkipped(blanks[1..], rest);
    }
  }

  lemma {:induction false} LeadingIsValue(digits: bytes)
    requires AllDigits(digits)
    ensures Leading(0, digits) == ValueOf(digits)
    decreases |digits|
  {
    if digits != [] {
      var n := |digits| - 1;
      LeadingIsValue(digits[..n]);
      LeadingAppend(0, digits[..n], [digits[n]]);
      assert digits == digits[..n] + [digits[n]] && [digits[n]][1..] == [];
      assert Leading(ValueOf(digits[..n]), [digits[n]]) == Leading(ValueOf(digits), []);
    }
  }

  lemma LeadingOf(digits: bytes, rest: bytes)
    requires AllDigits(digits) && (rest == [] || !(48 <= rest[0] <= 57))
    ensures Leading(0, digits + rest) == ValueOf(digits)
  {
    LeadingIsValue(digits);
    LeadingAppend(0, digits, rest);
  }

  /** The 32-bit strtoul: a number too large counts as the largest, a minus sign negates
      modulo 2^32, and no digits are 0; and atoi. */
  lemma NumberByBytes(s: Spelling)
    requires s.Fine()
    ensures var v: int := ValueOf(s.digits);
            && Strtoul(s.Text()) == (if v > 4294967295 then 4294967295
                                     else if s.sign == [45] && v > 0 then 4294967296 - v else v)
            && Atoi(s.Text()) == if s.sign == [45] then -v else v
  {
    var t, u := s.sign + (s.digits + s.rest), s.digits + s.rest;
    assert s.sign == [] ==> t == u;
    assert s.sign != [] ==> t[0] == s.sign[0] && t[1..] == u;
    assert s.digits == [] ==> u == s.rest;
    assert s.digits != [] ==> u[0] == s.digits[0];
    BlanksAreSkipped(s.blanks, t);
    LeadingOf(s.digits, s.rest);
  }
}
