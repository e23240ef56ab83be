/** The identifiers the library mints: a kind prefix, the player index and a number
    from one shared counter. */
module Ids {

  const DIGITS := "0123456789"

  function Decimal(n: nat): (text: string)
    ensures |text| > 0 && forall i | 0 <= i < |text| :: text[i] in DIGITS
  {
    if n < 10 then [DIGITS[n]] else Decimal(n / 10) + [DIGITS[n % 10]]
  }

  lemma {:induction false} DecimalInjective(m: nat, n: nat)
    requires Decimal(m) == Decimal(n)
    ensures m == n
  {
    var a, b := Decimal(m), Decimal(n);
    assert a[|a| - 1] == DIGITS[m % 10] && b[|b| - 1] == DIGITS[n % 10];
    assert m % 10 == n % 10;
    if m >= 10 && n >= 10 {
      assert Decimal(m / 10) == a[..|a| - 1] == b[..|b| - 1] == Decimal(n / 10);
      DecimalInjective(m / 10, n / 10);
    }
  }

  const BLUEPRINT_PREFIX := "blueprint:"
  const BOOK_PREFIX := "book:"

  function Suffix(player: nat, number: nat): string {
    Decimal(player) + ":" + Decimal(number)
  }

  function BlueprintId(player: nat, number: nat): string {
    BLUEPRINT_PREFIX + Suffix(player, number)
  }

  function BookId(player: nat, number: nat): string {
    BOOK_PREFIX + Suffix(player, number)
  }

  /** `Blueprints.is_book_id` on a string. */
  predicate IsBookId(id: string) {
    BOOK_PREFIX <= id
  }

  lemma SuffixInjective(p: nat, m: nat, q: nat, n: nat)
    requires Suffix(p, m) == Suffix(q, n)
    ensures p == q && m == n
  {
    var a, b := Suffix(p, m), Suffix(q, n);
    var i, j := |Decimal(p)|, |Decimal(q)|;
    assert a[i] == ':' && b[j] == ':';
    assert forall k | 0 <= k < i :: a[k] == Decimal(p)[k];
    assert forall k | 0 <= k < j :: b[k] == Decimal(q)[k];
    assert i == j;
    assert Decimal(p) == a[..i] == b[..j] == Decimal(q);
    assert Decimal(m) == a[i + 1..] == b[j + 1..] == Decimal(n);
    DecimalInjective(p, q);
    DecimalInjective(m, n);
  }

  /** Different players, different numbers or different kinds give different identifiers. */
  lemma IdsInjective(p: nat, m: nat, q: nat, n: nat)
    ensures BlueprintId(p, m) == BlueprintId(q, n) ==> p == q && m == n
    ensures BookId(p, m) == BookId(q, n) ==> p == q && m == n
    ensures BlueprintId(p, m) != BookId(q, n)
    ensures IsBookId(BookId(p, m)) && !IsBookId(BlueprintId(p, m))
  {
    if BlueprintId(p, m) == BlueprintId(q, n) {
      assert Suffix(p, m) == BlueprintId(p, m)[10..] == BlueprintId(q, n)[10..] == Suffix(q, n);
      SuffixInjective(p, m, q, n);
    }
    if BookId(p, m) == BookId(q, n) {
      assert Suffix(p, m) == BookId(p, m)[5..] == BookId(q, n)[5..] == Suffix(q, n);
      SuffixInjective(p, m, q, n);
    }
    assert BlueprintId(p, m)[1] == 'l' && BookId(q, n)[1] == 'o' && BookId(p, m)[1] == 'o';
    assert BOOK_PREFIX[1] == 'o';
  }
}
