/** Stand-ins for the browser string operations the inventory page relies on:
    String.prototype.trim, toLowerCase and includes, String(n) for integers and
    parseInt(s, 10). White space and letter case are ASCII only. */
module Text {

  datatype Option<T> = None | Some(value: T)

  /** The characters trim removes, restricted to ASCII. */
  predicate IsWhitespace(c: char) {
    c == ' ' || c == '\t' || c == '\n' || c == '\r' || c == '\U{000B}' || c == '\U{000C}'
  }

  ghost predicate IsBlank(s: string) {
    forall i :: 0 <= i < |s| ==> IsWhitespace(s[i])
  }

  /** Drops leading white space: what is left does not start with white
      space (TrimStartSplits says what was dropped). */
  function TrimStart(s: string): (r: string)
    ensures r == [] || !IsWhitespace(r[0])
  {
    if s != [] && IsWhitespace(s[0]) then TrimStart(s[1..]) else s
  }

  /** What TrimStart leaves is a suffix of s, and what it drops is all
      white space. */
  lemma {:induction false} TrimStartSplits(s: string)
    ensures var r := TrimStart(s);
      |r| <= |s| && r == s[|s| - |r|..] && IsBlank(s[..|s| - |r|])
  {
    if s != [] && IsWhitespace(s[0]) {
      TrimStartSplits(s[1..]);
      var r := TrimStart(s[1..]);
      assert s[|s| - |r|..] == s[1..][|s| - 1 - |r|..];
      assert s[..|s| - |r|] == [s[0]] + s[1..][..|s| - 1 - |r|];
    }
  }

  /** Drops trailing white space: what is left does not end with white
      space (TrimEndSplits says what was dropped). */
  function TrimEnd(s: string): (r: string)
    ensures r == [] || !IsWhitespace(r[|r| - 1])
  {
    if s != [] && IsWhitespace(s[|s| - 1]) then TrimEnd(s[..|s| - 1]) else s
  }

  /** What TrimEnd leaves is a prefix of s, and what it drops is all white
      space. */
  lemma {:induction false} TrimEndSplits(s: string)
    ensures var r := TrimEnd(s);
      |r| <= |s| && r == s[..|r|] && IsBlank(s[|r|..])
  {
    if s != [] && IsWhitespace(s[|s| - 1]) {
      TrimEndSplits(s[..|s| - 1]);
      var r := TrimEnd(s[..|s| - 1]);
      assert s[..|r|] == s[..|s| - 1][..|r|];
      assert s[|r|..] == s[..|s| - 1][|r|..] + [s[|s| - 1]];
    }
  }

  /** String.prototype.trim: the infix of s between its leading and its
      trailing white space. */
  function Trim(s: string): (r: string)
    ensures exists i :: TrimmedAt(s, r, i)
    ensures r == [] || (!IsWhitespace(r[0]) && !IsWhitespace(r[|r| - 1]))
  {
    var t := TrimStart(s);
    var r := TrimEnd(t);
    TrimStartSplits(s);
    TrimEndSplits(t);
    var i := |s| - |t|;
    assert s[i..i + |r|] == t[..|r|];
    assert s[i + |r|..] == t[|r|..];
    assert TrimmedAt(s, r, i);
    r
  }

  /** r sits in s at offset i with only white space before and after it. */
  ghost predicate TrimmedAt(s: string, r: string, i: int) {
    0 <= i <= |s| - |r| && r == s[i..i + |r|] && IsBlank(s[..i]) && IsBlank(s[i + |r|..])
  }

  /** Only strings made entirely of white space trim to the empty string. */
  lemma TrimEmptyIffBlank(s: string)
    ensures Trim(s) == [] <==> IsBlank(s)
  {
    var r := Trim(s);
    var i :| TrimmedAt(s, r, i);
    if r == [] {
      forall k | 0 <= k < |s| ensures IsWhitespace(s[k]) {
        if k < i { assert s[k] == s[..i][k]; } else { assert s[k] == s[i..][k - i]; }
      }
    } else {
      assert s[i] == r[0];
    }
  }

  /** Trimming an already trimmed string changes nothing. */
  lemma {:induction false} TrimIdempotent(s: string)
    ensures Trim(Trim(s)) == Trim(s)
  {
    var r := Trim(s);
    assert TrimStart(r) == r;
    assert TrimEnd(r) == r;
  }

  function LowerChar(c: char): char {
    if 'A' <= c <= 'Z' then (c as int + 32) as char else c
  }

  predicate IsUpper(c: char) {
    'A' <= c <= 'Z'
  }

  /** String.prototype.toLowerCase on ASCII letters: the string keeps its
      length, every character is mapped on its own, and no upper-case letter
      is left. */
  function Lower(s: string): (r: string)
    ensures |r| == |s|
    ensures forall i :: 0 <= i < |s| ==> r[i] == LowerChar(s[i])
    ensures forall i :: 0 <= i < |r| ==> !IsUpper(r[i])
  {
    seq(|s|, i requires 0 <= i < |s| => LowerChar(s[i]))
  }

  /** Text with no upper-case letter is its own lower-casing. */
  lemma LowerNoLetters(s: string)
    requires forall i :: 0 <= i < |s| ==> !IsUpper(s[i])
    ensures Lower(s) == s
  {
  }

  /** Lower-casing commutes with taking a slice. */
  lemma LowerSlice(s: string, i: int, j: int)
    requires 0 <= i <= j <= |s|
    ensures Lower(s)[i..j] == Lower(s[i..j])
  {
  }

  /** String.prototype.includes. */
  predicate Contains(s: string, q: string)
    decreases |s|
  {
    q <= s || (s != [] && Contains(s[1..], q))
  }

  /** q occurs in s starting at position i. */
  predicate OccursAt(s: string, q: string, i: int) {
    0 <= i <= |s| - |q| && s[i..i + |q|] == q
  }

  /** Contains holds exactly when q occurs at some position of s. */
  lemma {:induction false} ContainsIff(s: string, q: string)
    ensures Contains(s, q) <==> exists i :: OccursAt(s, q, i)
    decreases |s|
  {
    if q <= s {
      assert OccursAt(s, q, 0);
    } else if s != [] {
      ContainsIff(s[1..], q);
      forall i | OccursAt(s[1..], q, i) ensures OccursAt(s, q, i + 1) {
        OccursAtTail(s, q, i + 1);
      }
      forall i | OccursAt(s, q, i) ensures i == 0 ==> q <= s
        ensures i > 0 ==> OccursAt(s[1..], q, i - 1)
      {
        OccursAtTail(s, q, i);
      }
    }
  }

  /** An occurrence past the first position is an occurrence in the tail,
      and an occurrence at the first position is a prefix. */
  lemma OccursAtTail(s: string, q: string, i: int)
    requires 0 <= i && (i > 0 ==> s != [])
    ensures i == 0 ==> (OccursAt(s, q, 0) <==> q <= s)
    ensures i > 0 ==> (OccursAt(s, q, i) <==> OccursAt(s[1..], q, i - 1))
  {
    if i > 0 && i <= |s| - |q| {
      var t := s[1..];
      var a, b := s[i..i + |q|], t[i - 1..i - 1 + |q|];
      forall k | 0 <= k < |q| ensures a[k] == b[k] {
        assert t[i - 1 + k] == s[i + k];
      }
      assert a == b;
    } else if |q| <= |s| {
      assert s[0..|q|] == s[..|q|];
    }
  }

  /** Every string contains the empty string. */
  lemma ContainsEmpty(s: string)
    ensures Contains(s, [])
  {
  }

  /** A match in the original text is still a match after both sides are
      lower-cased, so a match as typed is still a match for the lower-cased
      search. */
  lemma ContainsLower(s: string, q: string)
    requires Contains(s, q)
    ensures Contains(Lower(s), Lower(q))
  {
    ContainsIff(s, q);
    var i :| OccursAt(s, q, i);
    LowerSlice(s, i, i + |q|);
    assert OccursAt(Lower(s), Lower(q), i);
    ContainsIff(Lower(s), Lower(q));
  }

  predicate IsDigit(c: char) {
    '0' <= c <= '9'
  }

  ghost predicate AllDigits(s: string) {
    forall i :: 0 <= i < |s| ==> IsDigit(s[i])
  }

  function DigitChar(d: nat): (c: char)
    requires d < 10
  {
    (d + '0' as int) as char
  }

  /** Decimal digits of a natural number, most significant first: never
      empty, digits only, and no leading zero except for 0 itself. */
  function NaturalString(n: nat): (r: string)
    ensures r != [] && AllDigits(r)
    ensures r[0] == '0' ==> n == 0 && r == "0"
  {
    if n < 10 then [DigitChar(n)] else NaturalString(n / 10) + [DigitChar(n % 10)]
  }

  /** String(n) for an integer n: a minus sign for negatives, then digits. */
  function DecimalString(n: int): (r: string)
    ensures r != []
    ensures n < 0 <==> r[0] == '-'
  {
    if n < 0 then "-" + NaturalString(-n) else NaturalString(n)
  }

  /** The number denoted by a string of decimal digits ("" denotes 0). */
  function DigitsValue(ds: string): nat
    requires AllDigits(ds)
  {
    if ds == [] then 0 else DigitsValue(ds[..|ds| - 1]) * 10 + (ds[|ds| - 1] as int - '0' as int)
  }

  /** Reading back the digits of n gives n. */
  lemma {:induction false} DigitsValueOfNaturalString(n: nat)
    ensures DigitsValue(NaturalString(n)) == n
  {
    if n >= 10 {
      var r := NaturalString(n);
      assert r[..|r| - 1] == NaturalString(n / 10);
      DigitsValueOfNaturalString(n / 10);
    }
  }

  /** The longest prefix of s made of decimal digits. */
  function LeadingDigits(s: string): (r: string)
    ensures r <= s && AllDigits(r)
    ensures |r| < |s| ==> !IsDigit(s[|r|])
  {
    if s != [] && IsDigit(s[0]) then [s[0]] + LeadingDigits(s[1..]) else []
  }

  /** parseInt(s, 10) without the floating-point range: leading white space
      is skipped, one optional sign is read, then the longest run of digits;
      no digit at all gives NaN, here None. */
  function ParseInt(s: string): Option<int> {
    ParseSigned(TrimStart(s))
  }

  /** An optional sign followed by the longest run of digits. */
  function ParseSigned(t: string): Option<int> {
    if t != [] && t[0] == '-' then Negate(ParseDigits(t[1..]))
    else if t != [] && t[0] == '+' then ParseDigits(t[1..])
    else ParseDigits(t)
  }

  /** The value of the longest run of digits at the start of u, if any. */
  function ParseDigits(u: string): Option<int> {
    var ds := LeadingDigits(u);
    if ds == [] then None else Some(DigitsValue(ds))
  }

  function Negate(v: Option<int>): Option<int> {
    match v
    case None => None
    case Some(x) => Some(-x)
  }

  /** parseInt reads back what String(n) wrote, and stops at the first
      character that is not a digit, so trailing text is ignored. */
  lemma {:induction false} ParseIntDecimalString(n: int, rest: string)
    requires rest == [] || !IsDigit(rest[0])
    ensures ParseInt(DecimalString(n) + rest) == Some(n)
  {
    if n < 0 {
      ParseIntNegative(-n, rest);
    } else {
      ParseIntNatural(n, rest);
    }
  }

  lemma ParseIntNegative(m: nat, rest: string)
    requires m > 0
    requires rest == [] || !IsDigit(rest[0])
    ensures ParseInt(DecimalString(-(m as int)) + rest) == Some(-(m as int))
  {
    var ds := NaturalString(m);
    assert DecimalString(-(m as int)) + rest == ['-'] + (ds + rest);
    DigitsValueOfNaturalString(m);
    ParseIntMinusDigits(ds, rest);
  }

  lemma ParseIntMinusDigits(ds: string, rest: string)
    requires ds != [] && AllDigits(ds)
    requires rest == [] || !IsDigit(rest[0])
    ensures ParseInt(['-'] + (ds + rest)) == Some(-(DigitsValue(ds) as int))
  {
    ParseDigitsOfDigits(ds, rest);
    ParseIntMinus(ds + rest, DigitsValue(ds));
  }

  /** A leading minus sign negates the run of digits that follows it. */
  lemma ParseIntMinus(u: string, v: int)
    requires ParseDigits(u) == Some(v)
    ensures ParseInt(['-'] + u) == Some(-v)
  {
    var s := ['-'] + u;
    TrimStartKeeps(s);
    assert s[1..] == u;
  }

  lemma ParseIntNatural(n: nat, rest: string)
    requires rest == [] || !IsDigit(rest[0])
    ensures ParseInt(DecimalString(n) + rest) == Some(n)
  {
    var ds := NaturalString(n);
    assert DecimalString(n) + rest == ds + rest;
    DigitsValueOfNaturalString(n);
    ParseIntDigits(ds, rest);
  }

  lemma ParseIntDigits(ds: string, rest: string)
    requires ds != [] && AllDigits(ds)
    requires rest == [] || !IsDigit(rest[0])
    ensures ParseInt(ds + rest) == Some(DigitsValue(ds))
  {
    assert IsDigit((ds + rest)[0]);
    ParseDigitsOfDigits(ds, rest);
    ParseIntUnsigned(ds + rest, DigitsValue(ds));
  }

  /** Text that starts with a digit is read as a run of digits. */
  lemma ParseIntUnsigned(u: string, v: int)
    requires u != [] && IsDigit(u[0]) && ParseDigits(u) == Some(v)
    ensures ParseInt(u) == Some(v)
  {
    TrimStartKeeps(u);
  }

  lemma TrimStartKeeps(s: string)
    requires s != [] && !IsWhitespace(s[0])
    ensures TrimStart(s) == s
  {
  }

  /** A run of digits, up to the first non-digit, reads as its value. */
  lemma ParseDigitsOfDigits(ds: string, rest: string)
    requires ds != [] && AllDigits(ds)
    requires rest == [] || !IsDigit(rest[0])
    ensures ParseDigits(ds + rest) == Some(DigitsValue(ds))
  {
    LeadingDigitsOfDigits(ds, rest);
  }

  lemma {:induction false} LeadingDigitsOfDigits(ds: string, rest: string)
    requires AllDigits(ds)
    requires rest == [] || !IsDigit(rest[0])
    ensures LeadingDigits(ds + rest) == ds
  {
    if ds != [] {
      assert (ds + rest)[1..] == ds[1..] + rest;
      LeadingDigitsOfDigits(ds[1..], rest);
    } else {
      assert ds + rest == rest;
    }
  }

  /** parseInt does not look at leading white space. */
  lemma {:induction false} ParseIntSkipsWhitespace(w: string, s: string)
    requires IsBlank(w)
    ensures ParseInt(w + s) == ParseInt(s)
  {
    TrimStartBlankPrefix(w, s);
  }

  lemma {:induction false} TrimStartBlankPrefix(w: string, s: string)
    requires IsBlank(w)
    ensures TrimStart(w + s) == TrimStart(s)
  {
    if w != [] {
      assert (w + s)[1..] == w[1..] + s;
      TrimStartBlankPrefix(w[1..], s);
    } else {
      assert w + s == s;
    }
  }
}
