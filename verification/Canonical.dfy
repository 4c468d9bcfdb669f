/** The single-line sweep and the names, rooms and nonces a signed payload is built from. */
module Canonical {
  import opened Common
  import opened Split
  import Decimal
  import Utf8

  /** `str.isdigit` is true of both kinds of digit, `int` reads only the decimal ones. */
  datatype DigitKind = NotDigit | DecimalDigit(value: nat) | OtherDigit

  /** The Unicode tables: the swept categories, `str.isspace`, and the digits. */
  datatype Unicode = Unicode(swept: CodePoint -> bool, space: CodePoint -> bool, digit: CodePoint -> DigitKind) {
    ghost predicate Valid() {
      && !swept(SPACE)
      && space(SPACE)
      && (forall c: CodePoint :: Utf8.Surrogate(c) ==> swept(c))
      && forall c: CodePoint :: Decimal.Digit(c) ==> digit(c) == DecimalDigit(c - Decimal.ZERO)
    }
  }

  datatype SweepPolicy = SweepPolicy(replaceWithSpace: bool, trimEnds: bool, collapseRuns: bool)

  const DEFAULT_SWEEP := SweepPolicy(true, true, false)
  const REMOVE_SWEEP := SweepPolicy(false, true, false)

  // ----- the three stages -------------------------------------------------------------------------

  /** Swept characters become spaces, or disappear. */
  function Blank(u: Unicode, t: Text, replace: bool): Text {
    if t == [] then [] else BlankChar(u, t[0], replace) + Blank(u, t[1..], replace)
  }

  function BlankChar(u: Unicode, c: CodePoint, replace: bool): Text {
    if !u.swept(c) then [c] else if replace then [SPACE] else []
  }

  function NonEmpty(parts: seq<Text>): (r: seq<Text>)
    ensures forall k :: 0 <= k < |r| ==> r[k] != [] && r[k] in parts
  {
    if parts == [] then []
    else (if parts[0] == [] then [] else [parts[0]]) + NonEmpty(parts[1..])
  }

  /** Runs of spaces become one space; none is left at the ends. */
  function Collapse(t: Text): Text {
    Join(NonEmpty(SplitOn(t, SPACE)), SPACE)
  }

  /** `str.strip()`. */
  function Strip(u: Unicode, t: Text): Text {
    if t == [] then []
    else if u.space(t[0]) then Strip(u, t[1..])
    else if u.space(t[|t| - 1]) then Strip(u, t[..|t| - 1])
    else t
  }

  function Sweep(u: Unicode, t: Text, p: SweepPolicy): Text {
    var blanked := Blank(u, t, p.replaceWithSpace);
    var collapsed := if p.collapseRuns then Collapse(blanked) else blanked;
    if p.trimEnds then Strip(u, collapsed) else collapsed
  }

  lemma BlankFirst(u: Unicode, s: Text, t: Text, replace: bool)
    requires s != []
    ensures Blank(u, s + t, replace) == BlankChar(u, s[0], replace) + Blank(u, s[1..] + t, replace)
  {
    assert (s + t)[1..] == s[1..] + t;
  }

  lemma {:induction false} BlankAppend(u: Unicode, s: Text, t: Text, replace: bool)
    ensures Blank(u, s + t, replace) == Blank(u, s, replace) + Blank(u, t, replace)
  {
    if s == [] {
      assert s + t == t;
    } else {
      var (first, rest, more) := (BlankChar(u, s[0], replace), Blank(u, s[1..], replace), Blank(u, t, replace));
      BlankFirst(u, s, t, replace);
      BlankAppend(u, s[1..], t, replace);
      assert first + (rest + more) == first + rest + more;
    }
  }

  /** `single_line_sweep`. */
  method SingleLineSweep(u: Unicode, text: Text, policy: SweepPolicy) returns (result: Text)
    ensures result == Sweep(u, text, policy)
  {
    var out: Text := [];
    for i := 0 to |text|
      invariant out == Blank(u, text[..i], policy.replaceWithSpace)
    {
      assert text[..i + 1] == text[..i] + [text[i]];
      BlankAppend(u, text[..i], [text[i]], policy.replaceWithSpace);
      if u.swept(text[i]) {
        if policy.replaceWithSpace {
          out := out + [SPACE];
        }
      } else {
        out := out + [text[i]];
      }
    }
    assert text[..|text|] == text;
    result := out;
    if policy.collapseRuns {
      result := Collapse(result);
    }
    if policy.trimEnds {
      result := Strip(u, result);
    }
  }

  // ----- what each stage leaves -------------------------------------------------------------------

  predicate Unswept(u: Unicode, t: Text) {
    forall i :: 0 <= i < |t| ==> !u.swept(t[i])
  }

  predicate Trimmed(u: Unicode, t: Text) {
    t != [] ==> !u.space(t[0]) && !u.space(t[|t| - 1])
  }

  predicate NoDoubleSpace(t: Text) {
    forall i :: 0 <= i < |t| - 1 ==> t[i] != SPACE || t[i + 1] != SPACE
  }

  predicate Collapsed(t: Text) {
    NoDoubleSpace(t) && (t != [] ==> t[0] != SPACE && t[|t| - 1] != SPACE)
  }

  lemma {:induction false} BlankUnswept(u: Unicode, t: Text, replace: bool)
    requires u.Valid()
    ensures Unswept(u, Blank(u, t, replace))
    ensures Unswept(u, t) ==> Blank(u, t, replace) == t
  {
    if t != [] {
      BlankUnswept(u, t[1..], replace);
      assert t == [t[0]] + t[1..];
      assert Unswept(u, t) ==> Unswept(u, t[1..]);
    }
  }

  /** Trimming keeps a slice, whose ends are not white space unless it is empty. */
  lemma {:induction false} StripSlice(u: Unicode, t: Text) returns (i: nat, j: nat)
    ensures i <= j <= |t| && Strip(u, t) == t[i..j]
    ensures Trimmed(u, Strip(u, t))
    ensures Trimmed(u, t) ==> Strip(u, t) == t
    decreases |t|
  {
    if t == [] {
      i, j := 0, 0;
    } else if u.space(t[0]) {
      i, j := StripSlice(u, t[1..]);
      assert t[1..][i..j] == t[i + 1..j + 1];
      i, j := i + 1, j + 1;
    } else if u.space(t[|t| - 1]) {
      i, j := StripSlice(u, t[..|t| - 1]);
      assert t[..|t| - 1][i..j] == t[i..j];
    } else {
      i, j := 0, |t|;
    }
  }

  lemma {:induction false} NonEmptyKeeps(parts: seq<Text>)
    requires forall k :: 0 <= k < |parts| ==> parts[k] != []
    ensures NonEmpty(parts) == parts
  {
    if parts != [] {
      NonEmptyKeeps(parts[1..]);
      assert parts == [parts[0]] + parts[1..];
    }
  }

  /** In a text without doubled or trailing spaces, only the first part can be empty. */
  lemma {:induction false} PartsNonEmpty(t: Text)
    requires NoDoubleSpace(t) && (t != [] ==> t[|t| - 1] != SPACE)
    ensures forall k :: 1 <= k < |SplitOn(t, SPACE)| ==> SplitOn(t, SPACE)[k] != []
    ensures SplitOn(t, SPACE)[0] == [] <==> t == [] || t[0] == SPACE
  {
    if t != [] {
      PartsNonEmpty(t[1..]);
    }
  }

  lemma {:induction false} JoinCollapsed(words: seq<Text>)
    requires forall k :: 0 <= k < |words| ==> words[k] != [] && SPACE !in words[k]
    ensures Collapsed(Join(words, SPACE))
    ensures words != [] ==> Join(words, SPACE) != []
  {
    if |words| > 1 {
      var w, rest := words[0], Join(words[1..], SPACE);
      JoinCollapsed(words[1..]);
      var t := w + [SPACE] + rest;
      assert t[|t| - 1] == rest[|rest| - 1];
      forall i | 0 <= i < |t| - 1 ensures t[i] != SPACE || t[i + 1] != SPACE {
        if i < |w| {
          assert t[i] == w[i];
        } else if i == |w| {
          assert t[i + 1] == rest[0];
        } else {
          assert t[i] == rest[i - |w| - 1] && t[i + 1] == rest[i - |w|];
        }
      }
    } else if |words| == 1 {
      assert forall i :: 0 <= i < |words[0]| ==> words[0][i] in words[0];
    }
  }

  lemma CollapseCollapsed(t: Text)
    ensures Collapsed(Collapse(t))
    ensures Collapsed(t) ==> Collapse(t) == t
  {
    JoinCollapsed(NonEmpty(SplitOn(t, SPACE)));
    if Collapsed(t) && t != [] {
      PartsNonEmpty(t);
      NonEmptyKeeps(SplitOn(t, SPACE));
      JoinSplit(t, SPACE);
    }
  }

  lemma {:induction false} JoinSplit(t: Text, sep: CodePoint)
    ensures Join(SplitOn(t, sep), sep) == t
  {
    if t != [] {
      JoinSplit(t[1..], sep);
      var parts := SplitOn(t[1..], sep);
      assert t == [t[0]] + t[1..];
      if t[0] == sep {
        assert ([[]] + parts)[1..] == parts;
      } else {
        var parts' := [[t[0]] + parts[0]] + parts[1..];
        assert parts'[1..] == parts[1..];
      }
    }
  }

  lemma {:induction false} JoinUnswept(u: Unicode, words: seq<Text>)
    requires u.Valid() && forall k :: 0 <= k < |words| ==> Unswept(u, words[k])
    ensures Unswept(u, Join(words, SPACE))
  {
    if |words| > 1 {
      JoinUnswept(u, words[1..]);
    }
  }

  lemma {:induction false} PartsUnswept(u: Unicode, t: Text)
    requires Unswept(u, t)
    ensures forall k :: 0 <= k < |SplitOn(t, SPACE)| ==> Unswept(u, SplitOn(t, SPACE)[k])
  {
    if t != [] {
      PartsUnswept(u, t[1..]);
    }
  }

  lemma CollapseUnswept(u: Unicode, t: Text)
    requires u.Valid() && Unswept(u, t)
    ensures Unswept(u, Collapse(t))
  {
    PartsUnswept(u, t);
    JoinUnswept(u, NonEmpty(SplitOn(t, SPACE)));
  }

  /** What every sweep leaves: nothing swept, and what the other two stages promise if they ran. */
  predicate Swept(u: Unicode, t: Text, p: SweepPolicy) {
    && Unswept(u, t)
    && (p.collapseRuns ==> Collapsed(t))
    && (p.trimEnds ==> Trimmed(u, t))
  }

  /** Trimming spoils nothing the earlier stages established. */
  lemma StripKeeps(u: Unicode, t: Text)
    requires u.Valid() && Unswept(u, t)
    ensures Unswept(u, Strip(u, t)) && Trimmed(u, Strip(u, t))
    ensures Collapsed(t) ==> Collapsed(Strip(u, t))
  {
    var i, j := StripSlice(u, t);
    var s := t[i..j];
    assert forall k :: 0 <= k < |s| ==> s[k] == t[i + k];
  }

  lemma SweepSwept(u: Unicode, t: Text, p: SweepPolicy)
    requires u.Valid()
    ensures Swept(u, Sweep(u, t, p), p)
  {
    var blanked := Blank(u, t, p.replaceWithSpace);
    BlankUnswept(u, t, p.replaceWithSpace);
    CollapseUnswept(u, blanked);
    CollapseCollapsed(blanked);
    StripKeeps(u, if p.collapseRuns then Collapse(blanked) else blanked);
  }

  lemma SweptIsFixed(u: Unicode, t: Text, p: SweepPolicy)
    requires u.Valid() && Swept(u, t, p)
    ensures Sweep(u, t, p) == t
  {
    BlankUnswept(u, t, p.replaceWithSpace);
    CollapseCollapsed(t);
    var i, j := StripSlice(u, t);
  }

  /** The sweep is idempotent under all eight policies. */
  lemma SweepIdempotent(u: Unicode, t: Text, p: SweepPolicy)
    requires u.Valid()
    ensures Sweep(u, Sweep(u, t, p), p) == Sweep(u, t, p)
  {
    SweepSwept(u, t, p);
    SweptIsFixed(u, Sweep(u, t, p), p);
  }

  /** Under each policy the fixed points are exactly the texts with nothing left to sweep, and they do
      not depend on whether swept characters are replaced or removed: a REMOVE result is a fixed point
      of the REPLACE sweep. */
  lemma FixedPoints(u: Unicode, t: Text, p: SweepPolicy)
    requires u.Valid()
    ensures Sweep(u, t, p) == t <==> Swept(u, t, p)
    ensures Sweep(u, Sweep(u, t, p), p.(replaceWithSpace := !p.replaceWithSpace)) == Sweep(u, t, p)
  {
    SweepSwept(u, t, p);
    if Swept(u, t, p) {
      SweptIsFixed(u, t, p);
    }
    SweptIsFixed(u, Sweep(u, t, p), p.(replaceWithSpace := !p.replaceWithSpace));
  }

  // ----- when nothing is left ---------------------------------------------------------------------

  predicate Invisible(u: Unicode, c: CodePoint) {
    u.swept(c) || u.space(c)
  }

  /** Characters of which a sweep leaves nothing. */
  predicate Vanishes(u: Unicode, c: CodePoint, p: SweepPolicy) {
    if p.trimEnds then Invisible(u, c)
    else if u.swept(c) then !p.replaceWithSpace || p.collapseRuns
    else c == SPACE && p.collapseRuns
  }

  /** The characters that blanking leaves. */
  lemma {:induction false} BlankMembers(u: Unicode, t: Text, replace: bool, c: CodePoint)
    ensures c in Blank(u, t, replace) <==> exists i :: 0 <= i < |t| && c in BlankChar(u, t[i], replace)
  {
    if t != [] {
      BlankMembers(u, t[1..], replace, c);
      if c in Blank(u, t[1..], replace) {
        var i :| 0 <= i < |t[1..]| && c in BlankChar(u, t[1..][i], replace);
        assert c in BlankChar(u, t[i + 1], replace);
      }
      if i :| 1 <= i < |t| && c in BlankChar(u, t[i], replace) {
        assert c in BlankChar(u, t[1..][i - 1], replace);
      }
    }
  }

  lemma {:induction false} PartsMembers(t: Text, c: CodePoint)
    requires c != SPACE && c in t
    ensures exists k :: 0 <= k < |SplitOn(t, SPACE)| && c in SplitOn(t, SPACE)[k]
  {
    var rest, parts := SplitOn(t[1..], SPACE), SplitOn(t, SPACE);
    if t[0] == c {
      assert c in parts[0];
    } else {
      PartsMembers(t[1..], c);
      var k :| 0 <= k < |rest| && c in rest[k];
      assert c in parts[if t[0] == SPACE then k + 1 else k];
    }
  }

  lemma {:induction false} NonEmptyHolds(parts: seq<Text>, k: nat)
    requires k < |parts| && parts[k] != []
    ensures parts[k] in NonEmpty(parts)
  {
    if k > 0 {
      NonEmptyHolds(parts[1..], k - 1);
    }
  }

  lemma {:induction false} JoinHolds(words: seq<Text>, k: nat, c: CodePoint)
    requires k < |words| && c in words[k]
    ensures c in Join(words, SPACE)
  {
    if |words| > 1 && k > 0 {
      JoinHolds(words[1..], k - 1, c);
    }
  }

  lemma {:induction false} JoinMembers(words: seq<Text>, c: CodePoint)
    requires c in Join(words, SPACE) && c != SPACE
    ensures exists k :: 0 <= k < |words| && c in words[k]
  {
    if |words| > 1 && c !in words[0] {
      JoinMembers(words[1..], c);
      var k :| 0 <= k < |words[1..]| && c in words[1..][k];
      assert c in words[k + 1];
    }
  }

  lemma {:induction false} PartsFrom(t: Text, k: nat, c: CodePoint)
    requires k < |SplitOn(t, SPACE)| && c in SplitOn(t, SPACE)[k]
    ensures c in t
  {
    var rest, parts := if t == [] then [[]] else SplitOn(t[1..], SPACE), SplitOn(t, SPACE);
    if t != [] && c != t[0] {
      if t[0] == SPACE {
        assert k > 0 && parts[k] == rest[k - 1];
        PartsFrom(t[1..], k - 1, c);
      } else {
        assert c in rest[k];
        PartsFrom(t[1..], k, c);
      }
    }
  }

  /** Collapsing keeps exactly the characters that are not spaces, and spaces only between them. */
  lemma CollapseMembers(t: Text, c: CodePoint)
    requires c != SPACE
    ensures c in Collapse(t) <==> c in t
  {
    var parts := SplitOn(t, SPACE);
    if c in t {
      PartsMembers(t, c);
      var k :| 0 <= k < |parts| && c in parts[k];
      NonEmptyHolds(parts, k);
      var j :| 0 <= j < |NonEmpty(parts)| && NonEmpty(parts)[j] == parts[k];
      JoinHolds(NonEmpty(parts), j, c);
    }
    if c in Collapse(t) {
      JoinMembers(NonEmpty(parts), c);
      var j :| 0 <= j < |NonEmpty(parts)| && c in NonEmpty(parts)[j];
      var k :| 0 <= k < |parts| && parts[k] == NonEmpty(parts)[j];
      PartsFrom(t, k, c);
    }
  }

  lemma CollapseEmpty(t: Text)
    ensures Collapse(t) == [] <==> forall c :: c in t ==> c == SPACE
  {
    CollapseCollapsed(t);
    if Collapse(t) != [] {
      CollapseMembers(t, Collapse(t)[0]);
    }
    if c :| c in t && c != SPACE {
      CollapseMembers(t, c);
    }
  }

  lemma {:induction false} StripEmpty(u: Unicode, t: Text)
    ensures Strip(u, t) == [] <==> forall c :: c in t ==> u.space(c)
    decreases |t|
  {
    if t != [] {
      var last := |t| - 1;
      if u.space(t[0]) {
        StripEmpty(u, t[1..]);
        assert t == [t[0]] + t[1..];
      } else {
        assert t[0] in t;
        if u.space(t[last]) {
          StripEmpty(u, t[..last]);
          assert last > 0 && t[..last][0] == t[0];
        }
      }
    }
  }

  /** The last two stages leave nothing exactly when they are given only what they drop. */
  lemma StagesEmpty(u: Unicode, blanked: Text, p: SweepPolicy)
    requires u.Valid()
    ensures var collapsed := if p.collapseRuns then Collapse(blanked) else blanked;
            (if p.trimEnds then Strip(u, collapsed) else collapsed) == [] <==>
              forall c :: c in blanked ==> (p.trimEnds && u.space(c)) || (p.collapseRuns && c == SPACE)
  {
    var collapsed := if p.collapseRuns then Collapse(blanked) else blanked;
    if p.trimEnds {
      StripEmpty(u, collapsed);
      forall c | c != SPACE ensures c in collapsed <==> c in blanked {
        if p.collapseRuns {
          CollapseMembers(blanked, c);
        }
      }
    } else if p.collapseRuns {
      CollapseEmpty(blanked);
    } else if blanked != [] {
      assert blanked[0] in blanked;
    }
  }

  /** Under each policy the sweep leaves nothing exactly of the texts that hold only characters it drops:
      it returns the empty text there, and refusing it is left to the payload builders. */
  lemma EmptySweep(u: Unicode, t: Text, p: SweepPolicy)
    requires u.Valid()
    ensures Sweep(u, t, p) == [] <==> forall i :: 0 <= i < |t| ==> Vanishes(u, t[i], p)
  {
    var blanked := Blank(u, t, p.replaceWithSpace);
    StagesEmpty(u, blanked, p);
    if Sweep(u, t, p) == [] {
      forall i | 0 <= i < |t| ensures Vanishes(u, t[i], p) {
        var left := BlankChar(u, t[i], p.replaceWithSpace);
        if left != [] {
          BlankMembers(u, t, p.replaceWithSpace, left[0]);
        }
      }
    }
    if forall i :: 0 <= i < |t| ==> Vanishes(u, t[i], p) {
      forall c | c in blanked ensures (p.trimEnds && u.space(c)) || (p.collapseRuns && c == SPACE) {
        BlankMembers(u, t, p.replaceWithSpace, c);
      }
    }
  }

  // ----- replace against remove -------------------------------------------------------------------

  /** The text from its first visible character to its last. */
  function Core(u: Unicode, t: Text): (core: Text)
    ensures core != [] ==> !Invisible(u, core[0]) && !Invisible(u, core[|core| - 1])
  {
    if t == [] then []
    else if Invisible(u, t[0]) then Core(u, t[1..])
    else if Invisible(u, t[|t| - 1]) then Core(u, t[..|t| - 1])
    else t
  }

  /** The core is a slice, and everything outside it is invisible. */
  lemma {:induction false} CoreSlice(u: Unicode, t: Text) returns (i: nat, j: nat)
    ensures i <= j <= |t| && Core(u, t) == t[i..j]
    ensures forall k :: 0 <= k < |t| && !Invisible(u, t[k]) ==> i <= k < j
    decreases |t|
  {
    if t == [] {
      i, j := 0, 0;
    } else if Invisible(u, t[0]) {
      i, j := CoreSlice(u, t[1..]);
      assert t[1..][i..j] == t[i + 1..j + 1];
      assert forall k :: 1 <= k < |t| ==> t[k] == t[1..][k - 1];
      i, j := i + 1, j + 1;
    } else if Invisible(u, t[|t| - 1]) {
      i, j := CoreSlice(u, t[..|t| - 1]);
      assert t[..|t| - 1][i..j] == t[i..j];
    } else {
      i, j := 0, |t|;
    }
  }

  function CountSwept(u: Unicode, t: Text): nat {
    if t == [] then 0 else (if u.swept(t[0]) then 1 else 0) + CountSwept(u, t[1..])
  }

  lemma BlankOne(u: Unicode, c: CodePoint, replace: bool)
    ensures Blank(u, [c], replace) == BlankChar(u, c, replace)
  {
    assert [c][1..] == [];
  }

  /** Blanking then trimming is taking the visible core, then blanking. */
  lemma {:induction false} StripBlank(u: Unicode, t: Text, replace: bool)
    requires u.Valid()
    ensures Strip(u, Blank(u, t, replace)) == Blank(u, Core(u, t), replace)
    decreases |t|
  {
    if t != [] {
      var b := Blank(u, t, replace);
      var last := |t| - 1;
      assert t == [t[0]] + t[1..] && t == t[..last] + [t[last]];
      BlankAppend(u, [t[0]], t[1..], replace);
      BlankAppend(u, t[..last], [t[last]], replace);
      BlankOne(u, t[0], replace);
      BlankOne(u, t[last], replace);
      if Invisible(u, t[0]) {
        StripBlank(u, t[1..], replace);
        assert b != Blank(u, t[1..], replace) ==> u.space(b[0]) && b[1..] == Blank(u, t[1..], replace);
      } else if Invisible(u, t[last]) {
        StripBlank(u, t[..last], replace);
        assert b[0] == t[0];
        assert b != Blank(u, t[..last], replace) ==>
            u.space(b[|b| - 1]) && b[..|b| - 1] == Blank(u, t[..last], replace);
      } else {
        assert b[0] == t[0] && b[|b| - 1] == t[last];
      }
    }
  }

  lemma {:induction false} BlankAt(u: Unicode, t: Text, k: nat)
    requires k < |t|
    ensures |Blank(u, t, true)| == |t| && Blank(u, t, true)[k] == if u.swept(t[k]) then SPACE else t[k]
  {
    BlankLength(u, t);
    if k > 0 {
      BlankLength(u, t[1..]);
      BlankAt(u, t[1..], k - 1);
    }
  }

  /** The default sweep, character by character: from the first visible character of the text to the last, with
      a space for every swept one. */
  lemma DefaultSweepExactly(u: Unicode, t: Text) returns (i: nat, j: nat)
    requires u.Valid()
    ensures i <= j <= |t| && |Sweep(u, t, DEFAULT_SWEEP)| == j - i
    ensures forall k :: 0 <= k < |t| && !u.swept(t[k]) && !u.space(t[k]) ==> i <= k < j
    ensures i < j ==> !u.swept(t[i]) && !u.space(t[i]) && !u.swept(t[j - 1]) && !u.space(t[j - 1])
    ensures forall k :: i <= k < j ==>
              Sweep(u, t, DEFAULT_SWEEP)[k - i] == if u.swept(t[k]) then SPACE else t[k]
  {
    StripBlank(u, t, true);
    i, j := CoreSlice(u, t);
    BlankLength(u, Core(u, t));
    forall k | i <= k < j ensures Sweep(u, t, DEFAULT_SWEEP)[k - i] == if u.swept(t[k]) then SPACE else t[k] {
      BlankAt(u, Core(u, t), k - i);
    }
  }

  lemma {:induction false} BlankLength(u: Unicode, t: Text)
    ensures |Blank(u, t, true)| == |t| && |Blank(u, t, false)| + CountSwept(u, t) == |t|
    ensures CountSwept(u, t) == 0 ==> Blank(u, t, true) == Blank(u, t, false)
  {
    if t != [] {
      BlankLength(u, t[1..]);
    }
  }

  /** The sweep never makes a text longer. */
  lemma SweepNotLonger(u: Unicode, t: Text)
    ensures |Sweep(u, t, DEFAULT_SWEEP)| <= |t|
  {
    BlankLength(u, t);
    var i, j := StripSlice(u, Blank(u, t, true));
  }

  /** Under default trimming the REPLACE result is longer than the REMOVE result by exactly the number
      of swept characters between the first and last visible character, so a conformance case
      discriminates between the two readings exactly when there is such a character. */
  lemma ReplaceAgainstRemove(u: Unicode, t: Text)
    requires u.Valid()
    ensures |Sweep(u, t, DEFAULT_SWEEP)| == |Sweep(u, t, REMOVE_SWEEP)| + CountSwept(u, Core(u, t))
    ensures Sweep(u, t, DEFAULT_SWEEP) != Sweep(u, t, REMOVE_SWEEP) <==> CountSwept(u, Core(u, t)) > 0
  {
    StripBlank(u, t, true);
    StripBlank(u, t, false);
    BlankLength(u, Core(u, t));
  }
}
