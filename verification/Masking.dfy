/** `_apply_full_mask` of agent_obs/guardrail/field_masker.py and its twin `_apply_pii_masking` of
    agent_obs/guardrail/engine.py: replacements from right to left, against simultaneous substitution. */
module Masking {
  import opened Sequences

  datatype Match = Match(start: nat, end: nat, mask: string, entity: string)

  function StartKey(m: Match): int { m.start }

  function FromRight(m: Match): int { 0 - m.start }

  /** The two matches do not overlap and do not start at the same place. */
  ghost predicate Apart(m: Match, n: Match) {
    (m.start < n.start && m.end <= n.start) || (n.start < m.start && n.end <= m.start)
  }

  /** What the detector promises: matches lie in the text and are pairwise apart. */
  ghost predicate Detected(text: string, ms: seq<Match>) {
    && (forall m :: m in ms ==> m.start <= m.end <= |text|)
    && forall i, j :: 0 <= i < j < |ms| ==> Apart(ms[i], ms[j])
  }

  // ---------------------------------------------------------------- simultaneous substitution

  /** Matches from left to right, each ending before the next begins, all within `[from, |text|]`. */
  ghost predicate InLine(text: string, ms: seq<Match>, from: nat) {
    if ms == [] then from <= |text|
    else from <= ms[0].start <= ms[0].end <= |text| && InLine(text, ms[1..], ms[0].end)
  }

  /** The text from `from` on, with every match replaced by its mask. */
  ghost function Substitute(text: string, ms: seq<Match>, from: nat): string
    requires InLine(text, ms, from)
    decreases ms
  {
    if ms == [] then text[from..]
    else text[from..ms[0].start] + ms[0].mask + Substitute(text, ms[1..], ms[0].end)
  }

  lemma InLineFrom(text: string, ms: seq<Match>, from: nat, p: nat)
    requires InLine(text, ms, from) && from <= p && (if ms == [] then p <= |text| else p <= ms[0].start)
    ensures InLine(text, ms, p)
    ensures Substitute(text, ms, from) == text[from..p] + Substitute(text, ms, p)
  {
    if ms == [] {
      assert text[from..] == text[from..p] + text[p..];
    } else {
      assert text[from..ms[0].start] == text[from..p] + text[p..ms[0].start];
      var rest := Substitute(text, ms[1..], ms[0].end);
      Regroup(text[from..p], text[p..ms[0].start], ms[0].mask);
      Regroup(text[from..p], text[p..ms[0].start] + ms[0].mask, rest);
    }
  }

  /** A slice bound, as Python cuts it down to the length. */
  function Clip(n: nat, length: nat): nat { if n < length then n else length }

  /** Line 535: one replacement in the partly masked text. */
  function Splice(s: string, m: Match): string {
    s[..Clip(m.start, |s|)] + m.mask + s[Clip(m.end, |s|)..]
  }

  /** All replacements, one after the other. */
  function SpliceEach(text: string, ms: seq<Match>): string {
    if ms == [] then text else Splice(SpliceEach(text, ms[..|ms| - 1]), ms[|ms| - 1])
  }

  /** Replacing the next match to the left turns the substitution of the later ones into that of all. */
  lemma SpliceStep(text: string, m: Match, later: seq<Match>)
    requires InLine(text, [m] + later, 0)
    ensures InLine(text, later, 0) && m.end <= |Substitute(text, later, 0)|
    ensures Splice(Substitute(text, later, 0), m) == Substitute(text, [m] + later, 0)
  {
    assert ([m] + later)[1..] == later;
    InLineWeaken(text, later, m.end);
    InLineFrom(text, later, 0, m.end);
    var s, rest := Substitute(text, later, 0), Substitute(text, later, m.end);
    assert s == text[0..m.end] + rest;
    assert s[m.end..] == rest;
    assert s[..m.start] == text[0..m.start];
  }

  lemma InLineWeaken(text: string, ms: seq<Match>, from: nat)
    requires InLine(text, ms, from)
    ensures InLine(text, ms, 0)
  {
  }

  // ---------------------------------------------------------------- order of processing

  ghost predicate Climbing(ms: seq<Match>) {
    forall i, j :: 0 <= i < j < |ms| ==> ms[i].start < ms[j].start
  }

  lemma ClimbingOrdered(ms: seq<Match>)
    requires Climbing(ms)
    ensures Ordered(ms, StartKey) && TiesEqual(ms, StartKey)
  {
  }

  lemma {:induction false} DetectedStarts(text: string, ms: seq<Match>, sorted: seq<Match>)
    requires Detected(text, ms) && multiset(sorted) == multiset(ms)
    ensures forall i, j :: 0 <= i < j < |sorted| ==> Apart(sorted[i], sorted[j])
    ensures forall m :: m in sorted ==> m.start <= m.end <= |text|
  {
    ApartPermutes(ms, sorted);
    forall m | m in sorted
      ensures m.start <= m.end <= |text|
    {
      assert m in multiset(sorted);
    }
  }

  /** Being pairwise apart does not depend on the order. */
  lemma ApartPermutes(ms: seq<Match>, ns: seq<Match>)
    requires multiset(ns) == multiset(ms)
    requires forall i, j :: 0 <= i < j < |ms| ==> Apart(ms[i], ms[j])
    ensures forall i, j :: 0 <= i < j < |ns| ==> Apart(ns[i], ns[j])
  {
    assert Distinct(ms);
    DistinctAreSingles(ms);
    SinglesAreDistinct(ns);
    forall i, j | 0 <= i < j < |ns|
      ensures Apart(ns[i], ns[j])
    {
      assert ns[i] in multiset(ms) && ns[j] in multiset(ms);
      var k :| 0 <= k < |ms| && ms[k] == ns[i];
      var l :| 0 <= l < |ms| && ms[l] == ns[j];
      assert ns[i] != ns[j];
      assert k < l || l < k;
    }
  }

  /** The matches in text order. */
  function InOrder(ms: seq<Match>): seq<Match> {
    SortBy(ms, StartKey)
  }

  lemma InOrderClimbs(text: string, ms: seq<Match>)
    requires Detected(text, ms)
    ensures Climbing(InOrder(ms)) && InLine(text, InOrder(ms), 0)
  {
    SortPermutes(ms, StartKey);
    SortOrdered(ms, StartKey);
    DetectedStarts(text, ms, InOrder(ms));
    LineUp(text, InOrder(ms), 0);
  }

  lemma {:induction false} LineUp(text: string, ms: seq<Match>, from: nat)
    requires forall i, j :: 0 <= i < j < |ms| ==> Apart(ms[i], ms[j]) && StartKey(ms[i]) <= StartKey(ms[j])
    requires forall m :: m in ms ==> from <= m.start <= m.end <= |text|
    requires from <= |text|
    ensures Climbing(ms) && InLine(text, ms, from)
    decreases ms
  {
    if ms != [] {
      forall m | m in ms[1..]
        ensures ms[0].end <= m.start <= m.end <= |text|
      {
        var i :| 0 <= i < |ms[1..]| && ms[1..][i] == m;
        assert Apart(ms[0], ms[i + 1]) && StartKey(ms[0]) <= StartKey(ms[i + 1]);
      }
      LineUp(text, ms[1..], ms[0].end);
    }
  }

  /** Sorting from the right is the reverse of sorting from the left. */
  lemma FromRightIsReverse(text: string, ms: seq<Match>)
    requires Detected(text, ms)
    ensures Reverse(SortBy(ms, FromRight)) == InOrder(ms)
  {
    var down := SortBy(ms, FromRight);
    var up := Reverse(down);
    SortPermutes(ms, FromRight);
    SortPermutes(ms, StartKey);
    SortOrdered(ms, FromRight);
    ReversePermutes(down);
    DetectedStarts(text, ms, down);
    assert Climbing(up) by {
      forall i, j | 0 <= i < j < |up|
        ensures up[i].start < up[j].start
      {
        var a, b := |down| - 1 - j, |down| - 1 - i;
        assert FromRight(down[a]) <= FromRight(down[b]) && Apart(down[a], down[b]);
      }
    }
    InOrderClimbs(text, ms);
    ClimbingOrdered(up);
    ClimbingOrdered(InOrder(ms));
    OrderedUnique(up, InOrder(ms), StartKey);
  }

  // ---------------------------------------------------------------- redaction paths

  function AfterLastColon(s: string): string {
    if ':' !in s then s else if s[0] == ':' && ':' !in s[1..] then s[1..] else AfterLastColon(s[1..])
  }

  function StripBrackets(s: string): string {
    if s != [] && s[|s| - 1] == ']' then StripBrackets(s[..|s| - 1]) else s
  }

  /** The path of a redaction: field, entity type and the digits at the end of the mask. */
  function Path(field: string): Match -> string {
    (m: Match) => field + "." + m.entity + "." + (if ':' in m.mask then StripBrackets(AfterLastColon(m.mask)) else "")
  }

  lemma {:induction false} LastColon(front: string, hex: string)
    requires ':' !in hex
    ensures AfterLastColon(front + ":" + hex) == hex
  {
    var s := front + ":" + hex;
    assert s[|front|] == ':';
    if front == [] {
      assert s[1..] == hex;
    } else {
      assert s[1..] == front[1..] + ":" + hex;
      assert s[1..][|front| - 1] == ':';
      LastColon(front[1..], hex);
    }
  }

  lemma {:induction false} BracketsStripped(s: string, n: nat)
    requires s == [] || s[|s| - 1] != ']'
    ensures StripBrackets(s + seq(n, _ => ']')) == s
  {
    var b := seq(n, _ => ']');
    if n == 0 {
      assert s + b == s;
    } else {
      assert (s + b)[..|s + b| - 1] == s + seq(n - 1, _ => ']');
      BracketsStripped(s, n - 1);
    }
  }

  /** For a mask "[<type>:<hex>]" the path is the field, the entity type and the hex digits, joined by dots. */
  lemma PathOfMask(field: string, m: Match, kind: string, hex: string)
    requires m.mask == "[" + kind + ":" + (hex + "]") && ':' !in hex && (hex == [] || hex[|hex| - 1] != ']')
    ensures Path(field)(m) == field + "." + m.entity + "." + hex
  {
    assert m.mask == ("[" + kind) + ":" + (hex + "]");
    assert m.mask[1 + |kind|] == ':';
    LastColon("[" + kind, hex + "]");
    assert hex + "]" == hex + seq(1, _ => ']');
    BracketsStripped(hex, 1);
  }

  /** A mask without a colon has no digits to add. */
  lemma PathOfPlainMask(field: string, m: Match)
    requires ':' !in m.mask
    ensures Path(field)(m) == field + "." + m.entity + "." + ""
  {
  }

  // ---------------------------------------------------------------- the maskers

  /** Matches in line, spliced from right to left, give the simultaneous substitution. */
  lemma {:induction false} SplicedIsSubstitute(text: string, down: seq<Match>)
    requires InLine(text, Reverse(down), 0)
    ensures SpliceEach(text, down) == Substitute(text, Reverse(down), 0)
  {
    if down == [] {
      assert text[0..] == text;
    } else {
      var n := |down| - 1;
      var later, m := down[..n], down[n];
      assert down == later + [m];
      ReverseConcat(later, [m]);
      assert Reverse(down) == [m] + Reverse(later);
      SpliceStep(text, m, Reverse(later));
      SplicedIsSubstitute(text, later);
    }
  }

  /** The loop over the matches. */
  method SpliceAll(text: string, ms: seq<Match>, path: Match -> string) returns (masked: string, redacted: seq<string>)
    ensures masked == SpliceEach(text, ms)
    ensures redacted == Map(path, ms)
  {
    masked, redacted := text, [];
    for i := 0 to |ms|
      invariant masked == SpliceEach(text, ms[..i])
      invariant redacted == Map(path, ms[..i])
    {
      assert ms[..i + 1][..i] == ms[..i];
      assert ms[..i + 1] == ms[..i] + [ms[i]];
      MapAppend(path, ms[..i], ms[i]);
      masked := Splice(masked, ms[i]);
      redacted := redacted + [path(ms[i])];
    }
    assert ms[..|ms|] == ms;
  }

  /** The matches in the order in which they are replaced. */
  function RightToLeft(ms: seq<Match>): seq<Match> {
    SortBy(ms, FromRight)
  }

  /** Masked text and paths are those of the simultaneous substitution in text order. */
  ghost predicate Substituted(text: string, ms: seq<Match>, field: string, masked: string, redacted: seq<string>) {
    && InLine(text, InOrder(ms), 0)
    && masked == Substitute(text, InOrder(ms), 0) && redacted == Map(Path(field), InOrder(ms))
  }

  /** `_apply_pii_masking`: sort from the right, splice, and put the paths back into text order. For matches that
      are apart the result is the simultaneous substitution, whatever order they came in. */
  method ApplyPiiMasking(text: string, matches: seq<Match>, field: string)
    returns (masked: string, redacted: seq<string>)
    ensures masked == SpliceEach(text, RightToLeft(matches))
    ensures redacted == Map(Path(field), Reverse(RightToLeft(matches)))
    ensures Detected(text, matches) ==> Substituted(text, matches, field, masked, redacted)
  {
    var down := SortBy(matches, FromRight);
    var paths;
    masked, paths := SpliceAll(text, down, Path(field));
    redacted := Reverse(paths);
    MapReverse(Path(field), down);
    if Detected(text, matches) {
      FromRightIsReverse(text, matches);
      InOrderClimbs(text, matches);
      SplicedIsSubstitute(text, down);
    }
  }

  /** `_apply_full_mask`: returns early when there is nothing to mask, and otherwise does the same. */
  method ApplyFullMask(text: string, matches: seq<Match>, field: string) returns (masked: string, redacted: seq<string>)
    ensures masked == SpliceEach(text, RightToLeft(matches))
    ensures redacted == Map(Path(field), Reverse(RightToLeft(matches)))
    ensures Detected(text, matches) ==> Substituted(text, matches, field, masked, redacted)
  {
    if matches == [] {
      assert text[0..] == text;
      return text, [];
    }
    masked, redacted := ApplyPiiMasking(text, matches, field);
  }

  // ---------------------------------------------------------------- the order in which matches are given

  /** Matches that start at the same place are the same match. */
  ghost predicate StartsDistinct(ms: seq<Match>) {
    forall m, n :: m in ms && n in ms && m.start == n.start ==> m == n
  }

  /** The order in which matches are given makes no difference to the order of replacement, for every reordering,
      exactly when different matches start at different places, overlapping or not. */
  lemma OrderIrrelevantIff(ms: seq<Match>)
    ensures (forall ns :: multiset(ns) == multiset(ms) ==> RightToLeft(ns) == RightToLeft(ms)) <==> StartsDistinct(ms)
  {
    if StartsDistinct(ms) {
      forall ns | multiset(ns) == multiset(ms)
        ensures RightToLeft(ns) == RightToLeft(ms)
      {
        OrderIrrelevant([], ms, ns);
      }
    } else {
      var m, n :| m in ms && n in ms && m.start == n.start && m != n;
      var x, y := Exchanged(ms, m, n);
    }
  }

  /** Two orders of the matches in which the replacement differs. */
  lemma Exchanged(ms: seq<Match>, m: Match, n: Match) returns (x: seq<Match>, y: seq<Match>)
    requires m in ms && n in ms && m.start == n.start && m != n
    ensures multiset(x) == multiset(ms) == multiset(y) && RightToLeft(x) != RightToLeft(y)
  {
    var i :| 0 <= i < |ms| && ms[i] == m;
    var j :| 0 <= j < |ms| && ms[j] == n;
    var rest := BringToFront(ms, if i < j then i else j, if i < j then j else i);
    TieShows(m, n, rest, FromRight);
    x, y := [m] + ([n] + rest), [n] + ([m] + rest);
  }

  /** So for such matches masked text and paths do not depend on it; and matches that are apart stay so. */
  lemma OrderIrrelevant(text: string, ms: seq<Match>, ns: seq<Match>)
    requires (StartsDistinct(ms) || Detected(text, ms)) && multiset(ms) == multiset(ns)
    ensures RightToLeft(ms) == RightToLeft(ns)
    ensures Detected(text, ms) ==> Detected(text, ns) && InOrder(ms) == InOrder(ns)
  {
    if Detected(text, ms) {
      DetectedDistinct(text, ms);
    }
    assert TiesEqual(ms, FromRight) && TiesEqual(ms, StartKey);
    SortFreeIfTiesEqual(ms, ns, FromRight);
    SortFreeIfTiesEqual(ms, ns, StartKey);
    if Detected(text, ms) {
      DetectedStarts(text, ms, ns);
    }
  }

  lemma DetectedDistinct(text: string, ms: seq<Match>)
    requires Detected(text, ms)
    ensures StartsDistinct(ms)
  {
    forall i, j | 0 <= i < j < |ms|
      ensures ms[i].start != ms[j].start
    {
      assert Apart(ms[i], ms[j]);
    }
  }

  lemma EqualStartsStay(a: Match, b: Match)
    requires a.start == b.start
    ensures RightToLeft([a, b]) == [a, b]
  {
    assert [a, b][1..] == [b] && [b][1..] == [];
    assert RightToLeft([b]) == [b];
  }

  /** Two matches with one start are replaced in the order given. */
  lemma EachOfTwo(text: string, a: Match, b: Match)
    requires a.start == b.start
    ensures SpliceEach(text, RightToLeft([a, b])) == Splice(Splice(text, a), b)
  {
    EqualStartsStay(a, b);
    assert [a, b][..1] == [a] && [a][..0] == [];
    assert SpliceEach(text, [a]) == Splice(text, a);
  }

  /** What is left of the text behind the start of a match once it is replaced: its mask, then what followed it. */
  function Behind(text: string, m: Match): string {
    m.mask + text[Clip(m.end, |text|)..]
  }

  /** Two matches with one start: the one given last is written in front, and of what the first one left behind the
      start it takes as many characters as it is long. The rest of the first one's mask stays in the text. */
  lemma SameStartSplices(text: string, a: Match, b: Match)
    requires a.start == b.start <= |text| && b.start <= b.end
    ensures var left := Behind(text, a);
            Splice(Splice(text, a), b) == text[..b.start] + b.mask + left[Clip(b.end - b.start, |left|)..]
  {
    var p, left := a.start, Behind(text, a);
    Regroup(text[..p], a.mask, text[Clip(a.end, |text|)..]);
    var s := text[..p] + left;
    assert Splice(text, a) == s;
    assert s[..p] == text[..p];
    assert s[Clip(b.end, |s|)..] == left[Clip(b.end - p, |left|)..];
  }

  /** For two matches of the same characters the result is that of the last one alone exactly when the first one's
      mask is as long as the match, or shorter at the end of the text. */
  lemma LastAloneIff(text: string, a: Match, b: Match)
    requires a.start == b.start <= a.end == b.end <= |text|
    ensures Splice(Splice(text, a), b) == Splice(text, b) <==>
            |a.mask| == a.end - a.start || (|a.mask| < a.end - a.start && a.end == |text|)
  {
    SameStartSplices(text, a, b);
    var p, n, left := a.start, a.end - a.start, Behind(text, a);
    var front, tail := text[..p] + b.mask, left[Clip(n, |left|)..];
    assert Splice(text, b) == front + text[a.end..];
    if |a.mask| == n {
      assert left[n..] == text[a.end..];
    }
    if front + tail == front + text[a.end..] {
      assert |front + tail| == |front| + |tail|;
      assert |front + text[a.end..]| == |front| + |text[a.end..]|;
    } else {
      assert tail != text[a.end..];
    }
  }

  /** Two matches with one start whose masks differ somewhere: exchanging them changes the masked text. */
  lemma OrderMatters(text: string, a: Match, b: Match, k: nat)
    requires a.start == b.start <= |text| && a.start <= a.end && b.start <= b.end
    requires k < |a.mask| && k < |b.mask| && a.mask[k] != b.mask[k]
    ensures SpliceEach(text, RightToLeft([a, b])) != SpliceEach(text, RightToLeft([b, a]))
  {
    EachOfTwo(text, a, b);
    EachOfTwo(text, b, a);
    SplicesDiffer(text, a, b, k);
  }

  lemma SplicesDiffer(text: string, a: Match, b: Match, k: nat)
    requires a.start == b.start <= |text| && a.start <= a.end && b.start <= b.end
    requires k < |a.mask| && k < |b.mask| && a.mask[k] != b.mask[k]
    ensures Splice(Splice(text, a), b) != Splice(Splice(text, b), a)
  {
    MaskInFront(text, a, b, k);
    MaskInFront(text, b, a, k);
  }

  lemma MaskInFront(text: string, a: Match, b: Match, k: nat)
    requires a.start == b.start <= |text| && b.start <= b.end && k < |b.mask|
    ensures var r := Splice(Splice(text, a), b); b.start + k < |r| && r[b.start + k] == b.mask[k]
  {
    SameStartSplices(text, a, b);
  }

  // ---------------------------------------------------------------- what is kept

  /** How far the character at `p` moves: by the growth of the matches that end before it. */
  function Shift(ms: seq<Match>, p: nat): int {
    if ms == [] || ms[0].end > p then 0
    else |ms[0].mask| - (ms[0].end as int - ms[0].start as int) + Shift(ms[1..], p)
  }

  ghost predicate Outside(ms: seq<Match>, p: nat) {
    forall m :: m in ms ==> p < m.start || m.end <= p
  }

  /** Every character outside the matches is kept, at its shifted place. */
  lemma {:induction false} OutsideKept(text: string, ms: seq<Match>, from: nat, p: nat)
    requires InLine(text, ms, from) && from <= p < |text| && Outside(ms, p)
    ensures 0 <= p - from + Shift(ms, p) < |Substitute(text, ms, from)|
    ensures Substitute(text, ms, from)[p - from + Shift(ms, p)] == text[p]
    decreases ms
  {
    if ms != [] {
      var m := ms[0];
      assert m in ms;
      var head, rest := text[from..m.start] + m.mask, Substitute(text, ms[1..], m.end);
      if m.end <= p {
        OutsideKept(text, ms[1..], m.end, p);
        assert (head + rest)[|head| + (p - m.end + Shift(ms[1..], p))] == text[p];
      } else {
        assert (head + rest)[p - from] == head[p - from] == text[p];
      }
    }
  }

  /** The length of the masked text. */
  lemma {:induction false} MaskedLength(text: string, ms: seq<Match>, from: nat)
    requires InLine(text, ms, from)
    ensures |Substitute(text, ms, from)| == |text| - from + Shift(ms, |text|)
    decreases ms
  {
    if ms != [] {
      MaskedLength(text, ms[1..], ms[0].end);
    }
  }
}
