/**
 Positional numerals in any base, most significant digit first, and conversion of a digit
 string from one base to another that keeps leading zeros. Base58 is the conversion
 between 256 and 58; decimal and big-endian integers use the same functions.
 */
module Radix {

  predicate IsNumeral(ds: seq<nat>, base: nat) {
    forall i | 0 <= i < |ds| :: ds[i] < base
  }

  predicate NoLeadingZero(ds: seq<nat>) {
    ds != [] ==> ds[0] != 0
  }

  function Value(ds: seq<nat>, base: nat): nat {
    if ds == [] then 0 else Value(ds[..|ds| - 1], base) * base + ds[|ds| - 1]
  }

  /** The numeral of n without leading zeros; zero has no digits at all. */
  function Expand(n: nat, base: nat): (ds: seq<nat>)
    requires base >= 2
    ensures IsNumeral(ds, base) && NoLeadingZero(ds)
    ensures ds == [] <==> n == 0
    decreases n
  {
    if n == 0 then []
    else
      QuotientShrinks(n, base);
      Expand(n / base, base) + [n % base]
  }

  function LeadingZeros(ds: seq<nat>): (z: nat)
    ensures z <= |ds|
  {
    if ds == [] || ds[0] != 0 then 0 else 1 + LeadingZeros(ds[1..])
  }

  function Zeros(z: nat): seq<nat> {
    seq(z, _ => 0)
  }

  /** Rewrites a numeral in another base, one leading zero for each leading zero. */
  function Convert(ds: seq<nat>, base: nat, target: nat): seq<nat>
    requires target >= 2
  {
    Zeros(LeadingZeros(ds)) + Expand(Value(ds, base), target)
  }

  function Power(base: nat, k: nat): nat {
    if k == 0 then 1 else base * Power(base, k - 1)
  }

  lemma QuotientShrinks(n: nat, base: nat)
    requires n > 0 && base >= 2
    ensures n / base < n
  {
    MulMonotone(2, base, n / base);
  }

  lemma DivModIdentity(n: nat, base: nat)
    requires base > 0
    ensures n / base * base + n % base == n
  {
  }

  lemma MulMonotone(x: nat, y: nat, b: nat)
    requires x <= y
    ensures x * b <= y * b
  {
  }

  lemma MulAssociates(x: nat, y: nat, z: nat)
    ensures (x * y) * z == x * (y * z)
  {
  }

  lemma MulDistributes(x: nat, y: nat, b: nat)
    ensures (x + y) * b == x * b + y * b
  {
  }

  lemma UniqueQuotient(q: nat, q': nat, base: nat, r: nat, r': nat)
    requires r < base && r' < base && q * base + r == q' * base + r'
    ensures q == q' && r == r'
  {
    MulDistributes(q, 1, base);
    MulDistributes(q', 1, base);
    if q < q' {
      MulMonotone(q + 1, q', base);
    } else if q' < q {
      MulMonotone(q' + 1, q, base);
    }
  }

  lemma DivModOfSum(q: nat, base: nat, r: nat)
    requires r < base
    ensures (q * base + r) / base == q && (q * base + r) % base == r
  {
    var n := q * base + r;
    UniqueQuotient(q, n / base, base, r, n % base);
  }

  lemma {:induction false} ValueOfExpand(n: nat, base: nat)
    requires base >= 2
    ensures Value(Expand(n, base), base) == n
    decreases n
  {
    if n != 0 {
      QuotientShrinks(n, base);
      ValueOfExpand(n / base, base);
      var ds := Expand(n, base);
      assert ds[..|ds| - 1] == Expand(n / base, base);
      DivModIdentity(n, base);
    }
  }

  lemma {:induction false} ExpandOfValue(ds: seq<nat>, base: nat)
    requires base >= 2 && IsNumeral(ds, base) && NoLeadingZero(ds)
    ensures Expand(Value(ds, base), base) == ds
  {
    if ds != [] {
      var front, last := ds[..|ds| - 1], ds[|ds| - 1];
      ExpandOfValue(front, base);
      var v := Value(front, base);
      var n := Value(ds, base);
      assert n == v * base + last;
      DivModOfSum(v, base, last);
      assert n > 0 by {
        if v > 0 {
          MulMonotone(1, v, base);
        }
      }
      assert ds == front + [last];
    }
  }

  lemma {:induction false} ValueSkipsZeros(z: nat, ds: seq<nat>, base: nat)
    ensures Value(Zeros(z) + ds, base) == Value(ds, base)
    decreases z + |ds|
  {
    var all := Zeros(z) + ds;
    if ds != [] {
      assert all[..|all| - 1] == Zeros(z) + ds[..|ds| - 1];
      ValueSkipsZeros(z, ds[..|ds| - 1], base);
    } else if z > 0 {
      assert all[..|all| - 1] == Zeros(z - 1) + [];
      ValueSkipsZeros(z - 1, [], base);
    }
  }

  lemma {:induction false} CountsZeros(z: nat, ds: seq<nat>)
    requires NoLeadingZero(ds)
    ensures LeadingZeros(Zeros(z) + ds) == z
  {
    if z == 0 {
      assert Zeros(0) + ds == ds;
    } else {
      assert (Zeros(z) + ds)[1..] == Zeros(z - 1) + ds;
      CountsZeros(z - 1, ds);
    }
  }

  lemma {:induction false} SplitLeadingZeros(ds: seq<nat>)
    ensures ds == Zeros(LeadingZeros(ds)) + ds[LeadingZeros(ds)..]
    ensures NoLeadingZero(ds[LeadingZeros(ds)..])
  {
    if ds != [] && ds[0] == 0 {
      SplitLeadingZeros(ds[1..]);
      assert ds == [0] + ds[1..];
    }
  }

  /** Conversion is a bijection between numerals of the two bases: converting back is exact. */
  lemma ConvertBack(ds: seq<nat>, base: nat, target: nat)
    requires base >= 2 && target >= 2 && IsNumeral(ds, base)
    ensures IsNumeral(Convert(ds, base, target), target)
    ensures Convert(Convert(ds, base, target), target, base) == ds
  {
    SplitLeadingZeros(ds);
    var z := LeadingZeros(ds);
    var core := ds[z..];
    var out := Expand(Value(ds, base), target);
    ValueSkipsZeros(z, core, base);
    CountsZeros(z, out);
    ValueSkipsZeros(z, out, target);
    ValueOfExpand(Value(core, base), target);
    ExpandOfValue(core, base);
  }

  lemma {:induction false} ValueBound(ds: seq<nat>, base: nat)
    requires IsNumeral(ds, base)
    ensures Value(ds, base) < Power(base, |ds|)
  {
    if ds != [] {
      var front := ds[..|ds| - 1];
      ValueBound(front, base);
      var v := Value(front, base);
      MulMonotone(v + 1, Power(base, |front|), base);
      MulDistributes(v, 1, base);
    }
  }

  lemma {:induction false} ValueOfConcat(hi: seq<nat>, lo: seq<nat>, base: nat)
    ensures Value(hi + lo, base) == Value(hi, base) * Power(base, |lo|) + Value(lo, base)
  {
    if lo == [] {
      assert hi + lo == hi;
    } else {
      var all, front := hi + lo, lo[..|lo| - 1];
      assert all[..|all| - 1] == hi + front;
      ValueOfConcat(hi, front, base);
      ShiftDigits(Value(hi, base), Power(base, |front|), Value(front, base), base);
    }
  }

  lemma ShiftDigits(h: nat, p: nat, f: nat, base: nat)
    ensures (h * p + f) * base == h * (base * p) + f * base
  {
    MulDistributes(h * p, f, base);
    MulAssociates(h, p, base);
  }

  /** n without its k lowest digits. */
  function DropDigits(n: nat, base: nat, k: nat): nat
    requires base > 0
    decreases k
  {
    if k == 0 then n else DropDigits(n / base, base, k - 1)
  }

  lemma {:induction false} DropDigitsBetween(n: nat, lo: nat, hi: nat, base: nat, k: nat)
    requires base > 0 && lo * Power(base, k) <= n < hi * Power(base, k)
    ensures lo <= DropDigits(n, base, k) < hi
    decreases k
  {
    if k > 0 {
      var p := Power(base, k - 1);
      QuotientBetween(n, lo, hi, p, base);
      DropDigitsBetween(n / base, lo, hi, base, k - 1);
    }
  }

  lemma QuotientBetween(n: nat, lo: nat, hi: nat, p: nat, base: nat)
    requires base > 0 && lo * (base * p) <= n < hi * (base * p)
    ensures lo * p <= n / base < hi * p
  {
    ShiftDigits(lo, p, 0, base);
    ShiftDigits(hi, p, 0, base);
    QuotientBounds(n, lo * p, hi * p, base);
  }

  lemma QuotientBounds(n: nat, x: nat, y: nat, base: nat)
    requires base > 0 && x * base <= n < y * base
    ensures x <= n / base < y
  {
    var q := n / base;
    DivModIdentity(n, base);
    MulDistributes(q, 1, base);
    if q < x {
      MulMonotone(q + 1, x, base);
    }
    if y <= q {
      MulMonotone(y, q, base);
    }
  }

  /** The numeral of n starts with the numeral of what is left after dropping k digits. */
  lemma {:induction false} ExpandTop(n: nat, base: nat, k: nat)
    requires base >= 2 && DropDigits(n, base, k) > 0
    ensures var top := Expand(DropDigits(n, base, k), base);
            |Expand(n, base)| == |top| + k && Expand(n, base)[..|top|] == top
    decreases k
  {
    if k > 0 {
      ExpandTop(n / base, base, k - 1);
      assert n > 0 by {
        if n == 0 {
          DropDigitsOfZero(base, k);
        }
      }
    }
  }

  lemma {:induction false} DropDigitsOfZero(base: nat, k: nat)
    requires base > 0
    ensures DropDigits(0, base, k) == 0
  {
    if k > 0 {
      DropDigitsOfZero(base, k - 1);
    }
  }

  lemma {:induction false} PowerPositive(base: nat, k: nat)
    requires base > 0
    ensures Power(base, k) > 0
  {
    if k > 0 {
      PowerPositive(base, k - 1);
    }
  }

  lemma {:induction false} PowerSum(base: nat, j: nat, k: nat)
    ensures Power(base, j + k) == Power(base, j) * Power(base, k)
  {
    if j > 0 {
      PowerSum(base, j - 1, k);
      MulAssociates(base, Power(base, j - 1), Power(base, k));
    }
  }
}
