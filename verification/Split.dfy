/** `str.split(sep)` and `sep.join(parts)` for a one-character separator. */
module Split {
  import opened Common

  function SplitOn(t: Text, sep: CodePoint): (parts: seq<Text>)
    ensures |parts| >= 1
    ensures forall k :: 0 <= k < |parts| ==> sep !in parts[k]
  {
    if t == [] then [[]]
    else
      var parts := SplitOn(t[1..], sep);
      if t[0] == sep then [[]] + parts else [[t[0]] + parts[0]] + parts[1..]
  }

  function Join(parts: seq<Text>, sep: CodePoint): Text {
    if parts == [] then []
    else if |parts| == 1 then parts[0]
    else parts[0] + [sep] + Join(parts[1..], sep)
  }

  lemma {:induction false} SplitPrefix(a: Text, t: Text, sep: CodePoint)
    requires sep !in a
    ensures SplitOn(a + t, sep) == [a + SplitOn(t, sep)[0]] + SplitOn(t, sep)[1..]
  {
    if a == [] {
      assert a + t == t && a + SplitOn(t, sep)[0] == SplitOn(t, sep)[0];
    } else {
      SplitPrefix(a[1..], t, sep);
      assert (a + t)[1..] == a[1..] + t;
      assert [a[0]] + a[1..] == a;
      assert [a[0]] + (a[1..] + SplitOn(t, sep)[0]) == a + SplitOn(t, sep)[0];
    }
  }

  /** Splitting what was joined gives the parts back when none of them holds the separator. */
  lemma {:induction false} SplitJoin(parts: seq<Text>, sep: CodePoint)
    requires parts != [] && forall k :: 0 <= k < |parts| ==> sep !in parts[k]
    ensures SplitOn(Join(parts, sep), sep) == parts
  {
    var a := parts[0];
    if |parts| == 1 {
      SplitPrefix(a, [], sep);
      assert a + [] == a;
    } else {
      var rest := Join(parts[1..], sep);
      SplitJoin(parts[1..], sep);
      SplitPrefix(a, [sep] + rest, sep);
      assert a + [sep] + rest == a + ([sep] + rest);
      assert ([sep] + rest)[1..] == rest;
      assert a + [] == a;
    }
  }
}
