/** escapeHtml: every occurrence of one of the five markup characters & < > " '
    is replaced by its entity, every other character is copied. */
module Escape {

  /** The five characters the escaper rewrites. */
  predicate IsSpecial(c: char) {
    c == '&' || c == '<' || c == '>' || c == '"' || c == '\''
  }

  /** The replacement table of the escaper; other characters stand for
      themselves. */
  function Entity(c: char): (e: string)
    ensures IsSpecial(c) ==> |e| > 1 && e[0] == '&' && e[|e| - 1] == ';'
    ensures !IsSpecial(c) ==> e == [c]
  {
    match c
    case '&' => "&amp;"
    case '<' => "&lt;"
    case '>' => "&gt;"
    case '"' => "&quot;"
    case '\'' => "&#039;"
    case _ => [c]
  }

  /** Escapes each character of s in turn, as the global regular-expression
      replace does. */
  function EscapeHtml(s: string): string {
    if s == [] then [] else Entity(s[0]) + EscapeHtml(s[1..])
  }

  /** Characters that would open or close markup or an attribute value. */
  predicate IsMarkup(c: char) {
    c == '<' || c == '>' || c == '"' || c == '\''
  }

  /** One of the five entities starts at position i of r. */
  predicate EntityAt(r: string, i: int)
    requires 0 <= i <= |r|
  {
    var t := r[i..];
    "&amp;" <= t || "&lt;" <= t || "&gt;" <= t || "&quot;" <= t || "&#039;" <= t
  }

  /** r is safe to place in markup: no raw markup character, and every
      ampersand begins one of the five entities. */
  predicate WellEscaped(r: string) {
    forall i :: 0 <= i < |r| ==> !IsMarkup(r[i]) && (r[i] == '&' ==> EntityAt(r, i))
  }

  /** Safety: the output of the escaper is well escaped. */
  lemma {:induction false} EscapeHtmlIsWellEscaped(s: string)
    ensures WellEscaped(EscapeHtml(s))
  {
    if s != [] {
      EntityIsWellEscaped(s[0]);
      EscapeHtmlIsWellEscaped(s[1..]);
      WellEscapedConcat(Entity(s[0]), EscapeHtml(s[1..]));
    }
  }

  lemma EntityIsWellEscaped(c: char)
    ensures WellEscaped(Entity(c))
  {
    var e := Entity(c);
    if IsSpecial(c) {
      assert e[0] == '&' && EntityAt(e, 0);
      assert forall i :: 1 <= i < |e| ==> e[i] != '&' && !IsMarkup(e[i]);
    }
  }

  /** Well-escaped strings stay well escaped when they are put side by side. */
  lemma WellEscapedConcat(a: string, b: string)
    requires WellEscaped(a) && WellEscaped(b)
    ensures WellEscaped(a + b)
  {
    var r := a + b;
    forall i | 0 <= i < |r| && r[i] == '&' ensures EntityAt(r, i) {
      if i < |a| {
        assert a[i] == '&' && EntityAt(a, i);
        assert r[i..] == a[i..] + b;
      } else {
        assert b[i - |a|] == '&' && EntityAt(b, i - |a|);
        assert r[i..] == b[i - |a|..];
      }
    }
    forall i | 0 <= i < |r| ensures !IsMarkup(r[i]) {
      if i < |a| { assert r[i] == a[i]; } else { assert r[i] == b[i - |a|]; }
    }
  }

  /** The escaper works character by character: escaping a concatenation is
      concatenating the escapes. */
  lemma {:induction false} EscapeHtmlConcat(a: string, b: string)
    ensures EscapeHtml(a + b) == EscapeHtml(a) + EscapeHtml(b)
  {
    if a == [] {
      assert a + b == b;
    } else {
      assert (a + b)[1..] == a[1..] + b;
      EscapeHtmlConcat(a[1..], b);
    }
  }

  /** Each character is replaced in place by its image and nothing else
      moves. */
  lemma EscapeHtmlAt(a: string, c: char, t: string)
    ensures EscapeHtml(a + [c] + t) == EscapeHtml(a) + Entity(c) + EscapeHtml(t)
  {
    EscapeHtmlConcat(a + [c], t);
    EscapeHtmlConcat(a, [c]);
    assert EscapeHtml([c]) == Entity(c) by {
      assert [c][1..] == [];
    }
  }

  /** Preservation: text without any of the five characters is left as it is. */
  lemma {:induction false} EscapeHtmlPlain(s: string)
    requires forall i :: 0 <= i < |s| ==> !IsSpecial(s[i])
    ensures EscapeHtml(s) == s
  {
    if s != [] {
      EscapeHtmlPlain(s[1..]);
      assert s == [s[0]] + s[1..];
    }
  }

  /** Decodes the five entities (and nothing else) back to their
      characters; any other character is copied. */
  function Unescape(r: string): string
    decreases |r|
  {
    if r == [] then []
    else if "&amp;" <= r then "&" + Unescape(r[5..])
    else if "&lt;" <= r then "<" + Unescape(r[4..])
    else if "&gt;" <= r then ">" + Unescape(r[4..])
    else if "&quot;" <= r then "\"" + Unescape(r[6..])
    else if "&#039;" <= r then "'" + Unescape(r[6..])
    else [r[0]] + Unescape(r[1..])
  }

  /** Decoding the image of one character yields that character and leaves
      the rest of the input to be decoded. */
  lemma UnescapeEntity(c: char, rest: string)
    ensures Unescape(Entity(c) + rest) == [c] + Unescape(rest)
  {
    var e := Entity(c);
    var r := e + rest;
    assert r[..|e|] == e;
    assert r[|e|..] == rest;
    if IsSpecial(c) {
      assert r[0] == '&' && r[1] == e[1];
      if c != '&' {
        assert !("&amp;" <= r);
      }
      if c == '"' {
        assert !("&lt;" <= r) && !("&gt;" <= r);
      }
      if c == '\'' {
        assert !("&lt;" <= r) && !("&gt;" <= r) && !("&quot;" <= r);
      }
    } else {
      assert r[0] == c && c != '&';
      assert r[1..] == rest;
    }
  }

  /** Round trip: decoding the escaped text gives back the original. */
  lemma {:induction false} UnescapeEscapeHtml(s: string)
    ensures Unescape(EscapeHtml(s)) == s
  {
    if s != [] {
      UnescapeEntity(s[0], EscapeHtml(s[1..]));
      UnescapeEscapeHtml(s[1..]);
      assert s == [s[0]] + s[1..];
    }
  }

  /** The escaper is injective: different texts never escape to the same
      markup. */
  lemma EscapeHtmlInjective(a: string, b: string)
    requires EscapeHtml(a) == EscapeHtml(b)
    ensures a == b
  {
    UnescapeEscapeHtml(a);
    UnescapeEscapeHtml(b);
  }
}
