/** The price and number helpers of `utils/mathUtils`: trial-division primality,
    case-insensitive vowel counting, the derived price, and currency formatting. */
module MathUtils {
  import opened Wrappers
  import opened JsBuiltins

  // ---------- isPrime ----------

  predicate Divides(d: int, n: int) {
    d != 0 && n % d == 0
  }

  /** The mathematical primality predicate the trial division is measured against. */
  ghost predicate Prime(n: int) {
    n >= 2 && forall d :: 2 <= d < n ==> !Divides(d, n)
  }

  /** The trial-division loop from candidate i on: it tries i, i + 2, i + 4, ... while
      the candidate is at most limit, answers false at the first candidate dividing n,
      and true once the candidates run out. */
  function NoOddDivisor(n: int, i: int, limit: int): (r: bool)
    requires i % 2 == 1
    ensures r <==> forall d :: i <= d <= limit && d % 2 == 1 ==> !Divides(d, n)
    decreases limit + 2 - i
  {
    if i > limit then true
    else if n % i == 0 then (assert Divides(i, n); false)
    else NoOddDivisor(n, i + 2, limit)
  }

  /** `isPrime(n)`: reject n < 2, accept 2, reject other even numbers, then trial-divide
      by the odd candidates 3, 5, ... up to the integer square root of n. */
  function IsPrime(n: int): (b: bool)
    ensures b <==> Prime(n)
  {
    if n < 2 then false
    else if n == 2 then true
    else if n % 2 == 0 then (assert Divides(2, n); false)
    else (TrialDivisionDecides(n); NoOddDivisor(n, 3, FloorSqrt(n)))
  }

  lemma EvenNotOdd(a: int, b: int)
    requires a % 2 == 0
    ensures (a * b) % 2 == 0
  {
    var k := a / 2;
    assert a * b == 2 * (k * b);
  }

  lemma SquareMonotone(a: nat, b: nat)
    requires a <= b
    ensures a * a <= b * b
  {
    assert a * a <= a * b <= b * b;
  }

  /** A proper divisor d of n has a cofactor q >= 2 with d * q == n, which divides n too. */
  lemma Cofactor(n: int, d: int) returns (q: int)
    requires n >= 3 && 2 <= d < n && Divides(d, n)
    ensures q >= 2 && d * q == n && Divides(q, n)
  {
    q := n / d;
    assert n == d * q;
    assert n == q * d;
    ModOfMultiple(q, d);
  }

  lemma MulAtLeast(q: int, m: int)
    requires q > 0 && m >= 1
    ensures q * m >= q
  {
  }

  /** A multiple of q leaves remainder 0, by uniqueness of the Euclidean remainder. */
  lemma ModOfMultiple(q: int, k: int)
    requires q > 0
    ensures (q * k) % q == 0
  {
    var k', r' := (q * k) / q, (q * k) % q;
    assert q * k == q * k' + r';
    assert q * (k - k') == r' by {
      assert q * (k - k') == q * k - q * k';
    }
    if k - k' >= 1 {
      MulAtLeast(q, k - k');
    } else if k' - k >= 1 {
      MulAtLeast(q, k' - k);
    }
  }

  /** Both factors of an odd number are odd. */
  lemma FactorsOfOddAreOdd(a: int, b: int)
    requires (a * b) % 2 == 1
    ensures a % 2 == 1 && b % 2 == 1
  {
    if a % 2 == 0 {
      EvenNotOdd(a, b);
    }
    if b % 2 == 0 {
      EvenNotOdd(b, a);
    }
  }

  /** The smaller factor of a factor pair is at most the integer square root. */
  lemma SmallerFactorBelowRoot(d: nat, q: nat)
    requires 1 <= d <= q
    ensures d <= FloorSqrt(d * q)
  {
    var r := FloorSqrt(d * q);
    MulMonotone(d, d, q);
    if d > r {
      SquareMonotone(r + 1, d);
    }
  }

  lemma MulMonotone(a: nat, b: nat, c: nat)
    requires b <= c
    ensures a * b <= a * c
  {
    assert a * c == a * b + a * (c - b);
  }

  /** A composite odd n has an odd divisor between 3 and its integer square root:
      of a factor pair d * q = n, the smaller factor is at most the square root. */
  lemma OddCompositeHasSmallOddDivisor(n: int, d: int) returns (e: int)
    requires n >= 3 && n % 2 == 1
    requires 2 <= d < n && Divides(d, n)
    ensures 3 <= e <= FloorSqrt(n) && e % 2 == 1 && Divides(e, n)
  {
    var q := Cofactor(n, d);
    FactorsOfOddAreOdd(d, q);
    if d <= q {
      SmallerFactorBelowRoot(d, q);
      e := d;
    } else {
      SmallerFactorBelowRoot(q, d);
      assert q * d == n;
      e := q;
    }
  }

  /** For odd n >= 3, trial division by the odd numbers up to the integer square
      root decides primality: it is sound and complete. */
  lemma TrialDivisionDecides(n: int)
    requires n >= 3 && n % 2 == 1
    ensures NoOddDivisor(n, 3, FloorSqrt(n)) <==> Prime(n)
  {
    TrialDivisionSound(n);
    TrialDivisionComplete(n);
  }

  /** An odd candidate between 3 and the square root is a proper divisor candidate. */
  lemma CandidateBelowN(n: int, d: int)
    requires n >= 3 && 3 <= d <= FloorSqrt(n)
    ensures d < n
  {
    var r := FloorSqrt(n);
    SquareMonotone(d, r);
    MulAtLeast(d, d - 1);
    assert d * d == d * (d - 1) + d;
  }

  /** A prime passes the trial division. */
  lemma TrialDivisionSound(n: int)
    requires n >= 3
    ensures Prime(n) ==> NoOddDivisor(n, 3, FloorSqrt(n))
  {
    if Prime(n) {
      forall d | 3 <= d <= FloorSqrt(n) && d % 2 == 1
        ensures !Divides(d, n)
      {
        CandidateBelowN(n, d);
      }
    }
  }

  /** An odd number that passes the trial division is prime. */
  lemma TrialDivisionComplete(n: int)
    requires n >= 3 && n % 2 == 1
    ensures NoOddDivisor(n, 3, FloorSqrt(n)) ==> Prime(n)
  {
    var r := FloorSqrt(n);
    if NoOddDivisor(n, 3, r) && !Prime(n) {
      var d :| 2 <= d < n && Divides(d, n);
      var e := OddCompositeHasSmallOddDivisor(n, d);
      assert false;
    }
  }

  /** The three early exits of isPrime: below 2, exactly 2, and even numbers above 2. */
  lemma IsPrimeEarlyExits(n: int)
    ensures n < 2 ==> !IsPrime(n)
    ensures IsPrime(2)
    ensures n > 2 && n % 2 == 0 ==> !IsPrime(n)
  {
  }

  // ---------- countVowels ----------

  /** `countVowels(text)`: the number of matches of `/[aeiou]/g` in the lower-cased
      text, where a `null` match result counts as the empty array. */
  function CountVowels(text: string): (r: nat)
    ensures r <= |text|
  {
    |MatchVowels(ToLowerCase(text)).GetOr([])|
  }

  /** The vowel letters in both cases. */
  const VowelLetters: string := "aeiouAEIOU"

  /** How many characters of s are among `letters` (counting each letter of
      `letters` once per occurrence in s). */
  ghost function Occurrences(s: string, letters: string): nat {
    if letters == [] then 0 else multiset(s)[letters[0]] + Occurrences(s, letters[1..])
  }

  lemma CountVowelsIsMatchCount(text: string)
    ensures CountVowels(text) == |VowelMatches(ToLowerCase(text))|
  {
  }

  /** Vowel counting is additive over concatenation, and the empty string has none. */
  lemma CountVowelsAppend(s: string, t: string)
    ensures CountVowels(s + t) == CountVowels(s) + CountVowels(t)
    ensures CountVowels([]) == 0
  {
    ToLowerCaseAppend(s, t);
    VowelMatchesAppend(ToLowerCase(s), ToLowerCase(t));
    CountVowelsIsMatchCount(s);
    CountVowelsIsMatchCount(t);
    CountVowelsIsMatchCount(s + t);
  }

  /** Case does not matter: lower-casing or upper-casing the text keeps the count. */
  lemma CountVowelsCaseInsensitive(s: string)
    ensures CountVowels(ToLowerCase(s)) == CountVowels(s)
    ensures CountVowels(ToUpperCase(s)) == CountVowels(s)
  {
    assert ToLowerCase(ToLowerCase(s)) == ToLowerCase(s);
    assert ToLowerCase(ToUpperCase(s)) == ToLowerCase(s);
  }

  lemma {:induction false} OccurrencesAppend(s: string, t: string, letters: string)
    ensures Occurrences(s + t, letters) == Occurrences(s, letters) + Occurrences(t, letters)
    decreases |letters|
  {
    assert multiset(s + t) == multiset(s) + multiset(t);
    if letters != [] {
      OccurrencesAppend(s, t, letters[1..]);
    }
  }

  lemma {:induction false} OccurrencesSingleton(c: char, letters: string)
    requires forall i, j :: 0 <= i < j < |letters| ==> letters[i] != letters[j]
    ensures Occurrences([c], letters) == if c in letters then 1 else 0
    decreases |letters|
  {
    if letters != [] {
      OccurrencesSingleton(c, letters[1..]);
      assert c in letters <==> c == letters[0] || c in letters[1..] by {
        assert letters == [letters[0]] + letters[1..];
      }
      if c == letters[0] {
        assert c !in letters[1..];
      }
    }
  }

  lemma VowelLettersDistinct()
    ensures forall i, j :: 0 <= i < j < |VowelLetters| ==> VowelLetters[i] != VowelLetters[j]
  {
  }

  /** A single character counts as a vowel exactly when it is one of the ten vowel letters. */
  lemma CountVowelsSingleton(c: char)
    ensures CountVowels([c]) == if c in VowelLetters then 1 else 0
  {
    CountVowelsIsMatchCount([c]);
    assert ToLowerCase([c]) == [LowerChar(c)];
    assert [LowerChar(c)][1..] == [];
    assert IsLowerVowel(LowerChar(c)) <==> c in VowelLetters;
  }

  /** Reference definition: `countVowels` counts exactly the occurrences of the ten
      letters a, e, i, o, u, A, E, I, O, U. */
  lemma {:induction false} CountVowelsCountsVowelLetters(s: string)
    ensures CountVowels(s) == Occurrences(s, VowelLetters)
    decreases |s|
  {
    if s == [] {
      CountVowelsAppend([], []);
    } else {
      var c := s[0];
      assert s == [c] + s[1..];
      CountVowelsAppend([c], s[1..]);
      OccurrencesAppend([c], s[1..], VowelLetters);
      VowelLettersDistinct();
      OccurrencesSingleton(c, VowelLetters);
      CountVowelsSingleton(c);
      CountVowelsCountsVowelLetters(s[1..]);
    }
  }

  /** Rearranging the characters of a text does not change its vowel count. */
  lemma CountVowelsPermutationInvariant(s: string, t: string)
    requires multiset(s) == multiset(t)
    ensures CountVowels(s) == CountVowels(t)
  {
    CountVowelsCountsVowelLetters(s);
    CountVowelsCountsVowelLetters(t);
    OccurrencesDependOnMultiset(s, t, VowelLetters);
  }

  lemma {:induction false} OccurrencesDependOnMultiset(s: string, t: string, letters: string)
    requires multiset(s) == multiset(t)
    ensures Occurrences(s, letters) == Occurrences(t, letters)
    decreases |letters|
  {
    if letters != [] {
      OccurrencesDependOnMultiset(s, t, letters[1..]);
    }
  }

  // ---------- calculatePrice ----------

  /** `calculatePrice(title, description)`: ten per title character plus one per
      vowel of the description. */
  function CalculatePrice(title: string, description: string): (price: nat)
    ensures 10 * |title| <= price <= 10 * |title| + |description|
  {
    |title| * 10 + CountVowels(description)
  }

  /** The price is ten per title character plus the number of vowel letters (either
      case) in the description; empty inputs cost nothing; extending the description
      adds exactly the vowels of the extension. */
  lemma CalculatePriceMeaning(title: string, description: string, more: string)
    ensures CalculatePrice(title, description) == 10 * |title| + Occurrences(description, VowelLetters)
    ensures CalculatePrice("", "") == 0
    ensures CalculatePrice(title, description + more) == CalculatePrice(title, description) + CountVowels(more)
  {
    CountVowelsCountsVowelLetters(description);
    CountVowelsAppend(description, more);
  }

  // ---------- formatCurrency ----------

  /** `formatCurrency(amount)` for a non-negative integer amount: "$", the decimal
      digits of the amount, then ".00". */
  function FormatCurrency(amount: nat): (r: string)
    ensures |r| >= 5 && r[0] == '$' && r[|r| - 3..] == ".00"
    ensures IsNumeral(r[1..|r| - 3]) && NumeralValue(r[1..|r| - 3]) == amount
  {
    var r := "$" + ToFixed2(amount);
    assert r[1..|r| - 3] == ToFixed2(amount)[..|ToFixed2(amount)| - 3];
    r
  }

  /** Reads back a string of the shape FormatCurrency produces; anything else is None. */
  function ParseCurrency(s: string): (r: Option<nat>)
  {
    if |s| >= 5 && s[0] == '$' && s[|s| - 3..] == ".00" && IsNumeral(s[1..|s| - 3])
    then Some(NumeralValue(s[1..|s| - 3]))
    else None
  }

  /** Formatting then parsing recovers the amount, and every string the parser accepts
      is the formatting of the amount it reads: FormatCurrency is a bijection onto the
      strings ParseCurrency accepts. */
  lemma FormatCurrencyRoundTrip(amount: nat, s: string)
    ensures ParseCurrency(FormatCurrency(amount)) == Some(amount)
    ensures ParseCurrency(s) == Some(amount) ==> FormatCurrency(amount) == s
  {
    if ParseCurrency(s) == Some(amount) {
      var digits := s[1..|s| - 3];
      DecimalStringOfValue(digits);
      assert s == "$" + digits + ".00";
    }
  }

  /** `formatCurrency(0)` is "$0.00". */
  lemma FormatCurrencyZero()
    ensures FormatCurrency(0) == "$0.00"
  {
  }
}
