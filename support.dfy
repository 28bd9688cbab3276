/** Option, the stand-in for Ruby's nil where a value may be absent. */
module Optional {
  datatype Option<+T> = None | Some(value: T)
}

/**
 * ActiveSupport's `blank?` on the two kinds of value the core passes it:
 * `nil` is blank, and a string is blank when it is empty or made only of
 * white space (the POSIX class `[[:space:]]`, which on a UTF-8 string is the
 * Unicode White_Space property). `present?` and the `presence: true`
 * validation are its negation.
 */
module Presence {
  import opened Optional

  /** The characters of the Unicode White_Space property. */
  predicate IsSpace(c: char) {
    ('\t' <= c <= '\r') || c == ' ' || c == '\U{0085}' || c == '\U{00A0}' || c == '\U{1680}'
    || ('\U{2000}' <= c <= '\U{200A}') || c == '\U{2028}' || c == '\U{2029}'
    || c == '\U{202F}' || c == '\U{205F}' || c == '\U{3000}'
  }

  predicate Blank(v: Option<string>) {
    match v
    case None => true
    case Some(s) => forall i :: 0 <= i < |s| ==> IsSpace(s[i])
  }

  /** What is left of `s` once its leading white space is dropped. */
  function StripLeading(s: string): (r: string)
    ensures |r| <= |s| && r == s[|s| - |r|..]
    ensures r == [] || !IsSpace(r[0])
  {
    if s == [] || !IsSpace(s[0]) then s else StripLeading(s[1..])
  }

  /** A string is blank exactly when stripping its white space leaves nothing. */
  lemma {:induction false} BlankIffStripsToEmpty(s: string)
    ensures Blank(Some(s)) <==> StripLeading(s) == []
  {
    if s != [] && IsSpace(s[0]) {
      BlankIffStripsToEmpty(s[1..]);
      assert Blank(Some(s)) <==> Blank(Some(s[1..])) by {
        if Blank(Some(s[1..])) {
          forall i | 0 <= i < |s| ensures IsSpace(s[i]) {
            if i > 0 { assert s[i] == s[1..][i - 1]; }
          }
        }
        if Blank(Some(s)) {
          forall i | 0 <= i < |s[1..]| ensures IsSpace(s[1..][i]) {
            assert s[1..][i] == s[i + 1];
          }
        }
      }
    } else if s != [] {
      assert !IsSpace(s[0]);
    }
  }

  /** The values the source's specs use: nil, the empty string, white space only, an address. */
  lemma BlankExamples()
    ensures Blank(None) && Blank(Some("")) && Blank(Some("  \t\n"))
    ensures !Blank(Some("user@example.com"))
  {
    assert "user@example.com"[0] == 'u';
  }
}

/** Decimal rendering of naturals, as string interpolation of an Integer writes them, and its inverse. */
module Decimal {
  predicate IsDigit(c: char) {
    '0' <= c <= '9'
  }

  predicate AllDigits(s: string) {
    forall i :: 0 <= i < |s| ==> IsDigit(s[i])
  }

  function DigitChar(d: nat): (c: char)
    requires d < 10
    ensures IsDigit(c)
  {
    (48 + d) as char
  }

  function DigitValue(c: char): (d: nat)
    requires IsDigit(c)
    ensures d < 10 && DigitChar(d) == c
  {
    c as int - 48
  }

  /** `n.to_s`: the shortest decimal numeral of n. */
  function Show(n: nat): (r: string)
    ensures |r| >= 1 && AllDigits(r)
    ensures |r| > 1 ==> r[0] != '0'
  {
    if n < 10 then [DigitChar(n)] else Show(n / 10) + [DigitChar(n % 10)]
  }

  /** The value of a string of decimal digits (the empty string reads as zero). */
  function Parse(s: string): (n: nat)
    requires AllDigits(s)
  {
    if s == [] then 0 else Parse(s[..|s| - 1]) * 10 + DigitValue(s[|s| - 1])
  }

  lemma {:induction false} ParseShow(n: nat)
    ensures Parse(Show(n)) == n
  {
    if n >= 10 {
      var s := Show(n);
      assert s[..|s| - 1] == Show(n / 10);
      ParseShow(n / 10);
    }
  }

  lemma ShowInjective(m: nat, n: nat)
    ensures Show(m) == Show(n) ==> m == n
  {
    ParseShow(m);
    ParseShow(n);
  }
}
