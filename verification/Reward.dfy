/** The reward schedule of the miners. */
module Reward {
  import opened Options
  import opened Transactions
  import opened ChainTables
  import opened Integers

  /** The blocks of one period. */
  const Period: int := 3_153_600

  /** What was left to be mined when the chain started: the whole supply of 8848000000000000000 less what the old
      chain had paid out in two phases. */
  const OldPhase1: int := 31_536_000 * 49_460_000_000
  const OldPhase2: int := (InitHeight - 31_536_000) * 8 / 10 * 49_460_000_000
  const Remaining: int := 8_848_000_000_000_000_000 - (1_000_000_000_000_000_000 + OldPhase1 + OldPhase2)

  lemma RemainingValue()
    ensures Remaining == 5_148_100_419_980_000_000
  {
  }

  /** The reward per block when so much is left. */
  function Tenth(left: nat): nat {
    left / Period / 10
  }

  /** What is left at the start of period x. */
  function Left(x: nat): (r: nat)
    ensures Period * Tenth(r) <= r
  {
    RemainingValue();
    var r := if x == 0 then Remaining else Left(x - 1) - Period * Tenth(Left(x - 1));
    TenthFits(r);
    r
  }

  /** A period never pays out more than a tenth of what is left. */
  lemma TenthFits(left: nat)
    ensures 0 <= 10 * (Period * Tenth(left)) <= left
  {
  }

  /** GetMinerAmount: no reward below the start of the chain, where the source panics. */
  method GetMinerAmount(height: nat) returns (r: Option<U64>)
    ensures r.None? <==> height < InitHeight
    ensures r.Some? ==> r.value == Reward(height)
  {
    RemainingValue();
    if height < InitHeight {
      return None;
    }
    var left: U64 := Remaining;
    var total: U64 := left / Period / 10;
    var x := (height - InitHeight) / Period;
    var i := 0;
    while i < x
      invariant 0 <= i <= x
      invariant left == Left(i) && total == Tenth(left)
    {
      TenthFits(left);
      left := left - Period * total;
      total := left / Period / 10;
      i := i + 1;
    }
    return Some(total);
  }

  function Reward(height: nat): nat
    requires height >= InitHeight
  {
    Tenth(Left((height - InitHeight) / Period))
  }

  lemma {:induction false} LeftDecreases(x: nat, y: nat)
    requires x <= y
    ensures Left(y) <= Left(x) <= Remaining
    decreases y
  {
    RemainingValue();
    if y > 0 {
      TenthFits(Left(y - 1));
      if x < y {
        LeftDecreases(x, y - 1);
      } else {
        LeftDecreases(x - 1, y - 1);
      }
    }
  }

  lemma TenthMonotone(a: nat, b: nat)
    requires a <= b
    ensures Tenth(a) <= Tenth(b)
  {
  }

  /** Rewards never grow with the height. */
  lemma RewardNonIncreasing(h: nat, h': nat)
    requires InitHeight <= h <= h'
    ensures Reward(h') <= Reward(h)
  {
    var x, y := (h - InitHeight) / Period, (h' - InitHeight) / Period;
    assert x <= y;
    LeftDecreases(x, y);
    TenthMonotone(Left(y), Left(x));
  }

  /** The sum of the rewards of the first n heights. */
  function Paid(n: nat): nat {
    if n == 0 then 0 else Paid(n - 1) + Reward(InitHeight + n - 1)
  }

  /** After n heights exactly what is missing from the remaining supply has been paid. */
  lemma {:induction false} PaidExactly(n: nat)
    ensures Paid(n) == Remaining - Left(n / Period) + n % Period * Tenth(Left(n / Period))
  {
    RemainingValue();
    if n > 0 {
      PaidExactly(n - 1);
      hide Tenth, Left;
      PaidStep(n, Tenth(Left((n - 1) / Period)));
      LeftStep((n - 1) / Period);
    }
  }

  lemma LeftStep(x: nat)
    ensures Left(x + 1) == Left(x) - Period * Tenth(Left(x))
  {
  }

  lemma PaidStep(n: nat, t: nat)
    requires n > 0
    ensures n % Period == 0 ==> n / Period == (n - 1) / Period + 1 && (n - 1) % Period * t + t == Period * t
    ensures n % Period != 0 ==> n / Period == (n - 1) / Period && (n - 1) % Period * t + t == n % Period * t
  {
  }

  /** Over all heights together no more is ever paid than the remaining supply. */
  lemma NeverOverpaid(n: nat)
    ensures Paid(n) <= Remaining
  {
    PaidExactly(n);
    hide Left, Paid;
    var x := n / Period;
    TenthFits(Left(x));
    MonotoneProduct(n % Period, Period, Tenth(Left(x)));
  }

  /** The same amount is paid at each height of a period; together it is a tenth of what was left, short of it by less
      than ten times its length, and that much less is left for the next period. */
  lemma PeriodPays(height: nat)
    requires height >= InitHeight
    ensures var x := (height - InitHeight) / Period;
            var paid := 3_153_600 * Reward(height);
            && Left(x + 1) == Left(x) - paid && 10 * paid <= Left(x) < 10 * paid + 31_536_000
            && Left(0) == 5_148_100_419_980_000_000
  {
    RemainingValue();
    var x := (height - InitHeight) / Period;
    LeftStep(x);
    TenthExact(Left(x));
  }

  lemma TenthExact(left: nat)
    ensures 10 * (Period * Tenth(left)) <= left < 10 * (Period * Tenth(left)) + 10 * Period
  {
  }
}
