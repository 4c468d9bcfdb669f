/** Big-endian positional numerals, and conversion between bases that keeps leading zeros. */
module Radix {
  import opened Common

  predicate DigitsIn(ds: seq<nat>, base: nat) {
    forall i :: 0 <= i < |ds| ==> ds[i] < base
  }

  /** `int.from_bytes(ds, "big")` when the base is 256. */
  function Value(ds: seq<nat>, base: nat): nat {
    if ds == [] then 0 else Value(ds[..|ds| - 1], base) * base + ds[|ds| - 1]
  }

  /** The shortest numeral of n. */
  function Digits(n: nat, base: nat): (ds: seq<nat>)
    requires base >= 2
    ensures DigitsIn(ds, base)
    ensures ds != [] ==> ds[0] != 0
    ensures ds == [] <==> n == 0
  {
    if n == 0 then [] else Digits(n / base, base) + [n % base]
  }

  function LeadingZeros(ds: seq<nat>): (k: nat)
    ensures k <= |ds|
    ensures forall i :: 0 <= i < k ==> ds[i] == 0
    ensures k < |ds| ==> ds[k] != 0
  {
    if ds == [] || ds[0] != 0 then 0 else 1 + LeadingZeros(ds[1..])
  }

  function Zeros(k: nat): (ds: seq<nat>)
    ensures |ds| == k
    ensures forall i :: 0 <= i < k ==> ds[i] == 0
  {
    Repeat(0, k)
  }

  /** One zero digit for each leading zero digit, then the shortest numeral of the value. */
  function Convert(ds: seq<nat>, from: nat, to: nat): seq<nat>
    requires to >= 2
  {
    Zeros(LeadingZeros(ds)) + Digits(Value(ds, from), to)
  }

  lemma MulMono(a: nat, b: nat, c: nat)
    ensures a <= b ==> a * c <= b * c
  {
  }

  lemma DivMod(n: nat, base: nat)
    requires base >= 1
    ensures n == n / base * base + n % base && n % base < base
  {
  }

  lemma QuotientSmaller(n: nat, base: nat)
    requires n > 0 && base >= 2
    ensures 0 <= n / base < n && 0 <= n % base < base
  {
    DivMod(n, base);
    MulMono(2, base, n / base);
  }

  lemma DivideOff(q: nat, base: nat, d: nat)
    requires d < base
    ensures (q * base + d) / base == q && (q * base + d) % base == d
  {
    var n := q * base + d;
    DivMod(n, base);
    MulMono(q + 1, n / base, base);
    MulMono(n / base + 1, q, base);
  }

  lemma ValueAppend(ds: seq<nat>, d: nat, base: nat)
    ensures Value(ds + [d], base) == Value(ds, base) * base + d
  {
    assert (ds + [d])[..|ds|] == ds;
  }

  lemma ValueOfParts(front: seq<nat>, d: nat, base: nat, q: nat, n: nat)
    requires Value(front, base) == q && n == q * base + d
    ensures Value(front + [d], base) == n
  {
    ValueAppend(front, d, base);
  }

  lemma {:induction false} ValueOfDigits(n: nat, base: nat)
    requires base >= 2
    ensures Value(Digits(n, base), base) == n
  {
    if n > 0 {
      DivMod(n, base);
      QuotientSmaller(n, base);
      ValueOfDigits(n / base, base);
      ValueOfParts(Digits(n / base, base), n % base, base, n / base, n);
    }
  }

  lemma {:induction false} DigitsOfValue(ds: seq<nat>, base: nat)
    requires base >= 2 && DigitsIn(ds, base)
    requires ds != [] ==> ds[0] != 0
    ensures Digits(Value(ds, base), base) == ds
  {
    if ds != [] {
      var front, last := ds[..|ds| - 1], ds[|ds| - 1];
      assert front != [] ==> front[0] == ds[0];
      DigitsOfValue(front, base);
      DivideOff(Value(front, base), base, last);
      assert front == [] ==> Value(ds, base) == last && last != 0;
      assert ds == front + [last];
    }
  }

  lemma {:induction false} ZerosHaveNoValue(k: nat, base: nat)
    ensures Value(Zeros(k), base) == 0
  {
    if k > 0 {
      ZerosHaveNoValue(k - 1, base);
      ValueAppend(Zeros(k - 1), 0, base);
      assert Zeros(k) == Zeros(k - 1) + [0];
      assert 0 * base == 0;
    }
  }

  lemma {:induction false} ValueIgnoresLeadingZeros(k: nat, ds: seq<nat>, base: nat)
    ensures Value(Zeros(k) + ds, base) == Value(ds, base)
    decreases |ds|
  {
    if ds == [] {
      ZerosHaveNoValue(k, base);
      assert Zeros(k) + ds == Zeros(k);
    } else {
      var front := ds[..|ds| - 1];
      ValueIgnoresLeadingZeros(k, front, base);
      assert Zeros(k) + ds == Zeros(k) + front + [ds[|ds| - 1]];
      ValueAppend(Zeros(k) + front, ds[|ds| - 1], base);
    }
  }

  lemma {:induction false} LeadingZerosOf(k: nat, ds: seq<nat>)
    requires ds != [] ==> ds[0] != 0
    ensures LeadingZeros(Zeros(k) + ds) == k
  {
    var all := Zeros(k) + ds;
    if k > 0 {
      LeadingZerosOf(k - 1, ds);
      assert all[1..] == Zeros(k - 1) + ds;
    } else {
      assert all == ds;
    }
  }

  /** Converting to another base and back gives the same digits, leading zeros included. */
  lemma ConvertBack(ds: seq<nat>, from: nat, to: nat)
    requires from >= 2 && to >= 2 && DigitsIn(ds, from)
    ensures DigitsIn(Convert(ds, from, to), to)
    ensures Convert(Convert(ds, from, to), to, from) == ds
  {
    var k := LeadingZeros(ds);
    var n := Value(ds, from);
    ValueIgnoresLeadingZeros(k, ds[k..], from);
    assert ds == Zeros(k) + ds[k..];
    DigitsOfValue(ds[k..], from);
    LeadingZerosOf(k, Digits(n, to));
    ValueIgnoresLeadingZeros(k, Digits(n, to), to);
    ValueOfDigits(n, to);
  }

  lemma ConvertEmpty(from: nat, to: nat)
    requires to >= 2
    ensures Convert([], from, to) == []
  {
    assert LeadingZeros([]) == 0 && Value([], from) == 0;
  }

  // ----- how long a numeral is and how it starts ------------------------------------------------

  function Power(base: nat, k: nat): nat {
    if k == 0 then 1 else base * Power(base, k - 1)
  }

  lemma {:induction false} PowerPositive(base: nat, k: nat)
    requires base >= 1
    ensures Power(base, k) >= 1
  {
    if k > 0 {
      PowerPositive(base, k - 1);
      assert base * Power(base, k - 1) >= 1;
    }
  }

  /** Dividing by base to the k drops the last k digits. */
  lemma {:induction false} DropDigits(n: nat, base: nat, k: nat, high: nat)
    requires base >= 2 && high > 0
    requires high * Power(base, k) <= n < (high + 1) * Power(base, k)
    ensures |Digits(n, base)| == |Digits(high, base)| + k
    ensures Digits(n, base)[..|Digits(high, base)|] == Digits(high, base)
  {
    if k == 0 {
      assert n == high;
    } else {
      var p := Power(base, k - 1);
      PowerPositive(base, k - 1);
      Requotient(n, base, p, high);
      DropDigits(n / base, base, k - 1, high);
      assert n > 0;
      assert Digits(n, base) == Digits(n / base, base) + [n % base];
    }
  }

  lemma DivBounds(n: nat, base: nat, a: nat, b: nat)
    requires base >= 1 && a * base <= n < b * base
    ensures a <= n / base < b
  {
    DivMod(n, base);
    MulMono(n / base + 1, a, base);
    MulMono(b, n / base, base);
  }

  lemma Reassociate(a: nat, b: nat, c: nat)
    ensures a * (b * c) == a * c * b
  {
  }

  lemma Requotient(n: nat, base: nat, p: nat, high: nat)
    requires base >= 2 && p >= 1 && high > 0
    requires high * (base * p) <= n < (high + 1) * (base * p)
    ensures high * p <= n / base < (high + 1) * p && n > 0
  {
    Reassociate(high, base, p);
    Reassociate(high + 1, base, p);
    DivBounds(n, base, high * p, (high + 1) * p);
    MulMono(1, high, p);
    assert n / base > 0;
  }
}
