/** Small shared vocabulary: optional values and results, bytes, and Python text as a sequence of code points. */
module Common {

  datatype Option<+T> = None | Some(value: T)

  datatype Result<+T, +E> = Ok(value: T) | Error(error: E)

  type Byte = b: int | 0 <= b < 256

  /** A Python `str` is a sequence of code points; unlike Dafny's `char` they include lone surrogates. */
  type CodePoint = c: int | 0 <= c < 0x110000

  type Text = seq<CodePoint>

  /** SHA-256 as a hex digest, uninterpreted. */
  type Sha = seq<Byte> -> Text

  predicate AsciiText(t: Text) {
    forall i :: 0 <= i < |t| ==> t[i] < 128
  }

  /** A Python int. `isinstance(x, int)` is also true of a bool, which counts as 0 or 1. */
  datatype PyInt = PyInt(n: int) | PyBool(b: bool) {
    function Number(): int {
      if PyInt? then n else if b then 1 else 0
    }
  }

  const SPACE: CodePoint := 0x20
  const SLASH: CodePoint := 0x2F
  const PIPE: CodePoint := 0x7C

  /** The text spelled by a Dafny literal. */
  function Lit(s: string): (t: Text)
    ensures |t| == |s|
    ensures forall i :: 0 <= i < |s| ==> t[i] == s[i] as int
  {
    seq(|s|, i requires 0 <= i < |s| => s[i] as int)
  }

  function Repeat<T>(x: T, n: nat): (s: seq<T>)
    ensures |s| == n
    ensures forall i :: 0 <= i < n ==> s[i] == x
  {
    seq(n, _ => x)
  }

  /** The value of a hexadecimal digit of either case. */
  function HexValue(c: CodePoint): Option<int> {
    if 0x30 <= c < 0x3A then Some(c - 0x30)
    else if 0x41 <= c < 0x47 then Some(c - 0x41 + 10)
    else if 0x61 <= c < 0x67 then Some(c - 0x61 + 10)
    else None
  }

  function Max(a: int, b: int): int {
    if a < b then b else a
  }

  /** Two sequences cut at the first occurrence of the same separator are cut the same way. */
  lemma {:induction false} CutOnce<T>(a: seq<T>, b: seq<T>, sep: T, r: seq<T>, s: seq<T>)
    requires sep !in a && sep !in b
    requires a + [sep] + r == b + [sep] + s
    ensures a == b && r == s
  {
    var x, y := a + [sep] + r, b + [sep] + s;
    assert x[|a|] == sep && y[|b|] == sep;
    assert forall i :: 0 <= i < |a| ==> x[i] != sep;
    assert forall i :: 0 <= i < |b| ==> y[i] != sep;
    assert a == x[..|a|] && b == y[..|a|];
    assert r == x[|a| + 1..] && s == y[|a| + 1..];
  }
}
