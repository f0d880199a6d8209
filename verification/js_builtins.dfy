/** The JavaScript primitives the helpers are built from, restricted to the inputs
    the app gives them: ASCII case mapping for `toLowerCase`/`toUpperCase`, the
    global regular-expression match `/[aeiou]/g`, `Math.floor(Math.sqrt(n))` on a
    non-negative integer, and `toFixed(2)` on a non-negative integer. */
module JsBuiltins {
  import opened Wrappers

  // ---------- case mapping ----------

  /** `toLowerCase` of one character, ASCII letters only. */
  function LowerChar(c: char): char {
    if 'A' <= c <= 'Z' then (c as int + 32) as char else c
  }

  /** `toUpperCase` of one character, ASCII letters only. */
  function UpperChar(c: char): char {
    if 'a' <= c <= 'z' then (c as int - 32) as char else c
  }

  function ToLowerCase(s: string): (r: string)
    ensures |r| == |s|
    ensures forall i :: 0 <= i < |s| ==> r[i] == LowerChar(s[i])
  {
    seq(|s|, i requires 0 <= i < |s| => LowerChar(s[i]))
  }

  function ToUpperCase(s: string): (r: string)
    ensures |r| == |s|
    ensures forall i :: 0 <= i < |s| ==> r[i] == UpperChar(s[i])
  {
    seq(|s|, i requires 0 <= i < |s| => UpperChar(s[i]))
  }

  /** Lower-casing distributes over concatenation. */
  lemma ToLowerCaseAppend(s: string, t: string)
    ensures ToLowerCase(s + t) == ToLowerCase(s) + ToLowerCase(t)
  {
    assert forall i :: 0 <= i < |s + t| ==> ToLowerCase(s + t)[i] == (ToLowerCase(s) + ToLowerCase(t))[i];
  }

  // ---------- the regular expression /[aeiou]/g ----------

  /** The character class `[aeiou]`: lower-case vowels only. */
  predicate IsLowerVowel(c: char) {
    c == 'a' || c == 'e' || c == 'i' || c == 'o' || c == 'u'
  }

  /** The matches of `/[aeiou]/g`, in order of occurrence; every match is one character. */
  function VowelMatches(s: string): (m: seq<char>)
    ensures |m| <= |s|
    ensures forall c :: c in m ==> IsLowerVowel(c)
    ensures m == [] <==> forall i :: 0 <= i < |s| ==> !IsLowerVowel(s[i])
  {
    if s == [] then []
    else
      var rest := VowelMatches(s[1..]);
      assert forall i :: 1 <= i < |s| ==> s[i] == s[1..][i - 1];
      (if IsLowerVowel(s[0]) then [s[0]] else []) + rest
  }

  /** `s.match(/[aeiou]/g)`: the array of matches, or `null` (None) when nothing matches. */
  function MatchVowels(s: string): (r: Option<seq<char>>)
    ensures r.None? <==> forall i :: 0 <= i < |s| ==> !IsLowerVowel(s[i])
    ensures r.Some? ==> r.value == VowelMatches(s) && r.value != []
  {
    var m := VowelMatches(s);
    if m == [] then None else Some(m)
  }

  lemma {:induction false} VowelMatchesAppend(s: string, t: string)
    ensures VowelMatches(s + t) == VowelMatches(s) + VowelMatches(t)
    decreases |s|
  {
    if s == [] {
      assert s + t == t;
    } else {
      assert (s + t)[0] == s[0];
      assert (s + t)[1..] == s[1..] + t;
      VowelMatchesAppend(s[1..], t);
    }
  }

  // ---------- Math.floor(Math.sqrt(n)) ----------

  /** The integer square root: the largest r with r * r <= n. */
  function FloorSqrt(n: nat): (r: nat)
    ensures r * r <= n < (r + 1) * (r + 1)
  {
    if n == 0 then 0
    else
      var s := FloorSqrt(n - 1);
      if (s + 1) * (s + 1) <= n then s + 1 else s
  }

  // ---------- decimal numerals and toFixed(2) ----------

  predicate IsDigit(c: char) {
    '0' <= c <= '9'
  }

  function DigitChar(d: nat): (c: char)
    requires d < 10
    ensures IsDigit(c) && c as int - '0' as int == d
  {
    (d + '0' as int) as char
  }

  function DigitValue(c: char): (d: nat)
    requires IsDigit(c)
    ensures d < 10 && DigitChar(d) == c
  {
    c as int - '0' as int
  }

  predicate AllDigits(s: string) {
    forall i :: 0 <= i < |s| ==> IsDigit(s[i])
  }

  /** A canonical decimal numeral: at least one digit, and no leading zero unless it is "0". */
  predicate IsNumeral(s: string) {
    |s| >= 1 && AllDigits(s) && (s[0] == '0' ==> |s| == 1)
  }

  /** The value of a string of decimal digits, read most significant digit first. */
  function NumeralValue(s: string): nat
    requires AllDigits(s)
  {
    if s == [] then 0
    else NumeralValue(s[..|s| - 1]) * 10 + DigitValue(s[|s| - 1])
  }

  /** The decimal representation of n, as `String(n)` renders a non-negative integer. */
  function DecimalString(n: nat): (r: string)
    ensures IsNumeral(r)
    ensures NumeralValue(r) == n
  {
    if n < 10 then [DigitChar(n)]
    else
      var p := DecimalString(n / 10);
      var r := p + [DigitChar(n % 10)];
      assert r[..|r| - 1] == p;
      r
  }

  /** A numeral whose first digit is not '0' has a positive value. */
  lemma {:induction false} LeadingDigitPositive(s: string)
    requires |s| >= 1 && AllDigits(s) && s[0] != '0'
    ensures NumeralValue(s) >= 1
    decreases |s|
  {
    if |s| > 1 {
      LeadingDigitPositive(s[..|s| - 1]);
    }
  }

  /** Appending digit d to the numeral of v gives the value v * 10 + d. */
  lemma LastDigit(v: nat, d: nat)
    requires d < 10
    ensures (v * 10 + d) / 10 == v && (v * 10 + d) % 10 == d
  {
  }

  /** Every canonical numeral is the decimal representation of its own value. */
  lemma {:induction false} DecimalStringOfValue(s: string)
    requires IsNumeral(s)
    ensures DecimalString(NumeralValue(s)) == s
    decreases |s|
  {
    if |s| > 1 {
      var p, c := s[..|s| - 1], s[|s| - 1];
      assert IsNumeral(p);
      LeadingDigitPositive(p);
      DecimalStringOfValue(p);
      var v := NumeralValue(p);
      assert NumeralValue(s) == v * 10 + DigitValue(c);
      LastDigit(v, DigitValue(c));
      assert s == p + [c];
    } else {
      assert s == [s[0]];
    }
  }

  /** `n.toFixed(2)` for a non-negative integer n: its digits followed by ".00". */
  function ToFixed2(n: nat): (r: string)
    ensures |r| >= 4 && r[|r| - 3..] == ".00"
    ensures IsNumeral(r[..|r| - 3]) && NumeralValue(r[..|r| - 3]) == n
  {
    var r := DecimalString(n) + ".00";
    assert r[..|r| - 3] == DecimalString(n);
    r
  }
}
