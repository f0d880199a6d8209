/** `app/saved`: the saved screen keeps private copies of the math helpers and
    badges each row by its 0-based index, while the feed of `app/index` badges by
    index + 1. The copies are modelled as written and shown to agree with
    `MathUtils`; the two badge conventions are recorded side by side. */
module SavedScreen {
  import opened Wrappers
  import opened JsBuiltins
  import opened Types
  import MathUtils

  /** The saved screen's own `isPrime`, with its `for` loop as a `while` loop. It
      agrees with `MathUtils.IsPrime` on every integer. */
  method IsPrime(n: int) returns (b: bool)
    ensures b == MathUtils.IsPrime(n)
    ensures b <==> MathUtils.Prime(n)
  {
    if n < 2 {
      return false;
    }
    if n == 2 {
      return true;
    }
    if n % 2 == 0 {
      return false;
    }
    var limit := FloorSqrt(n);
    var i := 3;
    while i <= limit
      invariant i % 2 == 1 && 3 <= i
      invariant MathUtils.NoOddDivisor(n, i, limit) == MathUtils.NoOddDivisor(n, 3, limit)
      decreases limit as int + 2 - i
    {
      if n % i == 0 {
        return false;
      }
      i := i + 2;
    }
    return true;
  }

  /** The saved screen's own `countVowels`; it agrees with `MathUtils.CountVowels`. */
  function CountVowels(text: string): (r: nat)
    ensures r == MathUtils.CountVowels(text)
  {
    |MatchVowels(ToLowerCase(text)).GetOr([])|
  }

  /** The saved screen's own `calculatePrice`; it agrees with `MathUtils.CalculatePrice`. */
  function CalculatePrice(title: string, description: string): (price: nat)
    ensures price == MathUtils.CalculatePrice(title, description)
  {
    |title| * 10 + CountVowels(description)
  }

  /** The saved screen's own `formatCurrency`; on non-negative integers it agrees
      with `MathUtils.FormatCurrency`. */
  function FormatCurrency(amount: nat): (r: string)
    ensures r == MathUtils.FormatCurrency(amount)
  {
    "$" + ToFixed2(amount)
  }

  /** What `renderItem` computes for the row at 0-based `index`: the prime badge,
      decided on the index itself, and the price label, which reads back as the
      product's derived price. */
  method RenderRow(item: Product, index: nat) returns (prime: bool, priceLabel: string)
    ensures prime <==> MathUtils.Prime(index)
    ensures MathUtils.ParseCurrency(priceLabel) == Some(MathUtils.CalculatePrice(item.title, item.description))
  {
    prime := IsPrime(index);
    var price := CalculatePrice(item.title, item.description);
    priceLabel := FormatCurrency(price);
    MathUtils.FormatCurrencyRoundTrip(price, priceLabel);
  }

  /** The saved screen badges the row at 0-based index i when i is prime. */
  function SavedRowBadged(index: nat): bool {
    MathUtils.IsPrime(index)
  }

  /** The feed badges the row at 0-based index i when i + 1 is prime. */
  function FeedRowBadged(index: nat): bool {
    MathUtils.IsPrime(index + 1)
  }

  /** The two conventions differ: on the saved screen the first two rows are never
      badged and the third is, while the feed badges the second row; a saved row is
      badged exactly when the feed row before it is; and only the third row (index 2)
      is badged on both screens. */
  lemma BadgeIndexMismatch()
    ensures !SavedRowBadged(0) && !SavedRowBadged(1) && SavedRowBadged(2)
    ensures FeedRowBadged(1) && !SavedRowBadged(1)
    ensures forall i: nat :: SavedRowBadged(i + 1) == FeedRowBadged(i)
    ensures forall i: nat :: SavedRowBadged(i) && FeedRowBadged(i) ==> i == 2
  {
    forall i: nat | SavedRowBadged(i) && FeedRowBadged(i)
      ensures i == 2
    {
      MathUtils.IsPrimeEarlyExits(i);
      MathUtils.IsPrimeEarlyExits(i + 1);
    }
  }
}
