/** Decimal numerals as `str(int)` prints them and `int(str)` reads them back. */
module Decimal {
  import opened Common

  const ZERO: CodePoint := 0x30
  const MINUS: CodePoint := 0x2D

  predicate Digit(c: CodePoint) {
    0x30 <= c < 0x3A
  }

  predicate AllDigits(t: Text) {
    forall i :: 0 <= i < |t| ==> Digit(t[i])
  }

  function Print(n: nat): (t: Text)
    ensures |t| >= 1 && AllDigits(t)
  {
    if n < 10 then [ZERO + n] else Print(n / 10) + [ZERO + n % 10]
  }

  function PrintInt(n: int): Text {
    if n < 0 then [MINUS] + Print(-n) else Print(n)
  }

  function Read(t: Text): nat
    requires AllDigits(t)
  {
    if t == [] then 0 else Read(t[..|t| - 1]) * 10 + (t[|t| - 1] - ZERO)
  }

  lemma {:induction false} ReadPrint(n: nat)
    ensures Read(Print(n)) == n
  {
    if n >= 10 {
      ReadPrint(n / 10);
      assert Print(n)[..|Print(n)| - 1] == Print(n / 10);
    } else {
      assert Read(Print(n)[..0]) == 0;
    }
  }

  function Pow10(k: nat): nat {
    if k == 0 then 1 else 10 * Pow10(k - 1)
  }

  /** A numeral has at most k digits exactly when the number is below ten to the k. */
  lemma {:induction false} PrintLength(n: nat, k: nat)
    requires k >= 1
    ensures |Print(n)| <= k <==> n < Pow10(k)
  {
    if k == 1 {
      assert Pow10(1) == 10;
    } else if n >= 10 {
      PrintLength(n / 10, k - 1);
    } else {
      PrintLength(n, k - 1);
    }
  }

  /** A numeral without superfluous leading zeros. */
  predicate Shortest(t: Text) {
    t != [] && AllDigits(t) && (t[0] == ZERO ==> |t| == 1)
  }

  lemma {:induction false} PrintShortest(n: nat)
    ensures Shortest(Print(n)) && (Print(n)[0] == ZERO ==> n == 0)
  {
    if n >= 10 {
      PrintShortest(n / 10);
    }
  }

  /** Reading a numeral and printing it again gives it back exactly when it is the shortest one. */
  lemma {:induction false} PrintRead(t: Text)
    requires AllDigits(t)
    ensures Print(Read(t)) == t <==> Shortest(t)
    ensures Shortest(t) && t[0] != ZERO ==> Read(t) > 0
    decreases |t|
  {
    PrintShortest(Read(t));
    if Shortest(t) {
      var front, last := t[..|t| - 1], t[|t| - 1];
      assert t == front + [last];
      if front == [] {
        assert Read(front) == 0;
      } else {
        PrintRead(front);
      }
    }
  }

  lemma {:induction false} ReadBound(t: Text)
    requires AllDigits(t)
    ensures Read(t) < Pow10(|t|)
  {
    if t != [] {
      ReadBound(t[..|t| - 1]);
    }
  }

  lemma {:induction false} LeadingZeroUnread(t: Text)
    requires AllDigits(t) && t != [] && t[0] == ZERO
    ensures Read(t) == Read(t[1..])
  {
    var front := t[..|t| - 1];
    if front == [] {
      assert Read(front) == 0 && t[1..] == [];
    } else {
      LeadingZeroUnread(front);
      assert t[1..][..|t[1..]| - 1] == front[1..];
    }
  }

  /** Of all numerals that read as a number its printed form is the only shortest one. */
  lemma PrintIsShortest(t: Text)
    requires AllDigits(t) && t != []
    ensures |Print(Read(t))| <= |t|
    ensures |Print(Read(t))| == |t| ==> Print(Read(t)) == t
  {
    ReadBound(t);
    PrintLength(Read(t), |t|);
    PrintRead(t);
    if !Shortest(t) {
      LeadingZeroUnread(t);
      ReadBound(t[1..]);
      PrintLength(Read(t), |t| - 1);
    }
  }
}
