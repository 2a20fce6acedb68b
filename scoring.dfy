/** The weighted readiness score, the low-score warnings and the readiness
    tier that close an assessment. */
module Scoring {
  import opened Catalogue
  import opened Answers

  /** The top of the answer scale: each item can earn at most this many
      times its weight. */
  const MaxScale: real := 3.0

  /** One response paired with the weight of its item. */
  datatype WeightedScore = WeightedScore(score: Score, weight: real)

  predicate AllHaveRows(primary: seq<PrimaryRow>, rs: seq<Entry>) {
    forall j :: 0 <= j < |rs| ==> HasRow(primary, rs[j].id)
  }

  /** A response with the weight of the first row carrying its id. */
  function Weigh(primary: seq<PrimaryRow>, e: Entry): WeightedScore
    requires HasRow(primary, e.id)
  {
    WeightedScore(e.score, primary[FindRow(primary, e.id)].weight)
  }

  /** The (score, weight) pairs the summary loop visits, in response order. */
  function Weighted(primary: seq<PrimaryRow>, rs: seq<Entry>): (ps: seq<WeightedScore>)
    requires AllHaveRows(primary, rs)
    ensures |ps| == |rs|
  {
    if rs == [] then []
    else Weighted(primary, rs[..|rs| - 1]) + [Weigh(primary, rs[|rs| - 1])]
  }

  /** Sum of `f` over `s`, adding from the front. */
  function SumOf<T>(s: seq<T>, f: T -> real): real {
    if s == [] then 0.0 else SumOf(s[..|s| - 1], f) + f(s[|s| - 1])
  }

  function EarnedBy(p: WeightedScore): real {
    p.score as real * p.weight
  }

  function PossibleFor(p: WeightedScore): real {
    MaxScale * p.weight
  }

  /** `total_score`: the sum of score times weight. */
  function Earned(ps: seq<WeightedScore>): real {
    SumOf(ps, EarnedBy)
  }

  /** `max_score`: the sum of three times weight. */
  function Possible(ps: seq<WeightedScore>): real {
    SumOf(ps, PossibleFor)
  }

  /** `overall_percentage`, in exact arithmetic. */
  function Percentage(ps: seq<WeightedScore>): real
    requires Possible(ps) != 0.0
  {
    Earned(ps) / Possible(ps) * 100.0
  }

  predicate PositiveWeights(ps: seq<WeightedScore>) {
    forall j :: 0 <= j < |ps| ==> ps[j].weight > 0.0
  }

  lemma {:induction false} SumOfAppend<T>(a: seq<T>, b: seq<T>, f: T -> real)
    ensures SumOf(a + b, f) == SumOf(a, f) + SumOf(b, f)
  {
    if b == [] {
      assert a + b == a;
    } else {
      assert (a + b)[..|a + b| - 1] == a + b[..|b| - 1];
      SumOfAppend(a, b[..|b| - 1], f);
    }
  }

  /** A sum does not depend on the order of its terms. */
  lemma {:induction false} SumOfPermutation<T>(s: seq<T>, t: seq<T>, f: T -> real)
    requires multiset(s) == multiset(t)
    ensures SumOf(s, f) == SumOf(t, f)
    decreases |s|
  {
    if s == [] {
      assert |t| == |multiset(t)| == 0;
    } else {
      var x := s[|s| - 1];
      var s' := s[..|s| - 1];
      assert s == s' + [x];
      assert x in multiset(t);
      var i :| 0 <= i < |t| && t[i] == x;
      assert t == t[..i] + [x] + t[i + 1..];
      var t' := t[..i] + t[i + 1..];
      assert multiset(s') == multiset(s) - multiset{x};
      assert multiset(t') == multiset(t) - multiset{x} by {
        assert multiset(t) == multiset(t[..i]) + multiset{x} + multiset(t[i + 1..]);
      }
      SumOfPermutation(s', t', f);
      SumOfAppend(t[..i], t[i + 1..], f);
      SumOfAppend(t[..i] + [x], t[i + 1..], f);
      SumOfAppend(t[..i], [x], f);
      assert SumOf([x], f) == f(x) by {
        assert [x][..0] == [];
      }
    }
  }

  /** The percentage depends only on the multiset of (score, weight) pairs,
      not on the order in which the responses are visited. */
  lemma PercentageOrderIndependent(ps: seq<WeightedScore>, qs: seq<WeightedScore>)
    requires multiset(ps) == multiset(qs)
    requires Possible(ps) != 0.0
    ensures Possible(qs) == Possible(ps)
    ensures Percentage(qs) == Percentage(ps)
  {
    SumOfPermutation(ps, qs, EarnedBy);
    SumOfPermutation(ps, qs, PossibleFor);
  }

  /** With positive weights each item earns between a third of and all of
      its possible points, and any item makes the possible total positive. */
  lemma {:induction false} EarnedBetweenThirdAndAll(ps: seq<WeightedScore>)
    requires PositiveWeights(ps)
    ensures Possible(ps) <= 3.0 * Earned(ps) && Earned(ps) <= Possible(ps)
    ensures |ps| > 0 ==> Possible(ps) > 0.0
  {
    if ps != [] {
      EarnedBetweenThirdAndAll(ps[..|ps| - 1]);
    }
  }

  /** With positive weights and at least one response the percentage lies
      between 100/3 and 100: every answer earns at least 1 of 3 points. */
  lemma PercentageBounds(ps: seq<WeightedScore>)
    requires PositiveWeights(ps) && |ps| > 0
    ensures Possible(ps) > 0.0
    ensures 100.0 / 3.0 <= Percentage(ps) <= 100.0
  {
    EarnedBetweenThirdAndAll(ps);
    var e, p := Earned(ps), Possible(ps);
    assert Percentage(ps) * p == 100.0 * e;
  }

  /** The weights the summary reads for the responses: that of the first
      row carrying each response's id. */
  predicate ReadWeightsPositive(primary: seq<PrimaryRow>, rs: seq<Entry>)
    requires AllHaveRows(primary, rs)
  {
    forall j :: 0 <= j < |rs| ==> primary[FindRow(primary, rs[j].id)].weight > 0.0
  }

  /** For an assessment with at least one response, where every weight the
      summary reads is positive, the division is defined and the score lies
      between 100/3 and 100. Rows the responses never reach, such as rows
      that only feed the secondary table, may have any weight. */
  lemma ReadinessBounds(primary: seq<PrimaryRow>, rs: seq<Entry>)
    requires AllHaveRows(primary, rs) && |rs| > 0
    requires ReadWeightsPositive(primary, rs)
    ensures Possible(Weighted(primary, rs)) > 0.0
    ensures 100.0 / 3.0 <= Percentage(Weighted(primary, rs)) <= 100.0
  {
    WeightedPositive(primary, rs);
    PercentageBounds(Weighted(primary, rs));
  }

  /** The pair at position `j` is response `j` with its first row's weight. */
  lemma {:induction false} WeightedAt(primary: seq<PrimaryRow>, rs: seq<Entry>)
    requires AllHaveRows(primary, rs)
    ensures forall j :: 0 <= j < |rs| ==> Weighted(primary, rs)[j] == Weigh(primary, rs[j])
  {
    if rs != [] {
      WeightedAt(primary, rs[..|rs| - 1]);
    }
  }

  lemma WeightedPositive(primary: seq<PrimaryRow>, rs: seq<Entry>)
    requires AllHaveRows(primary, rs)
    requires ReadWeightsPositive(primary, rs)
    ensures PositiveWeights(Weighted(primary, rs))
  {
    WeightedAt(primary, rs);
  }

  /** A reordering of responses that all have rows has rows too. */
  lemma PermutedHaveRows(primary: seq<PrimaryRow>, rs: seq<Entry>, qs: seq<Entry>)
    requires AllHaveRows(primary, rs) && multiset(rs) == multiset(qs)
    ensures AllHaveRows(primary, qs)
  {
    forall j | 0 <= j < |qs| ensures HasRow(primary, qs[j].id) {
      assert qs[j] in multiset(rs);
      var k :| 0 <= k < |rs| && rs[k] == qs[j];
    }
  }

  /** `g` applied to every element of `s`, in order. */
  function Image<T, U>(s: seq<T>, g: T -> U): (r: seq<U>)
    ensures |r| == |s|
  {
    if s == [] then [] else Image(s[..|s| - 1], g) + [g(s[|s| - 1])]
  }

  lemma {:induction false} ImageAt<T, U>(s: seq<T>, g: T -> U)
    ensures forall j :: 0 <= j < |s| ==> Image(s, g)[j] == g(s[j])
  {
    if s != [] {
      ImageAt(s[..|s| - 1], g);
    }
  }

  lemma {:induction false} ImageAppend<T, U>(a: seq<T>, b: seq<T>, g: T -> U)
    ensures Image(a + b, g) == Image(a, g) + Image(b, g)
  {
    if b == [] {
      assert a + b == a;
    } else {
      assert (a + b)[..|a + b| - 1] == a + b[..|b| - 1];
      ImageAppend(a, b[..|b| - 1], g);
    }
  }

  /** Taking the element at `i` out of a sequence takes one copy of it out
      of the multiset. */
  lemma RemoveAt<T>(s: seq<T>, i: nat)
    requires i < |s|
    ensures s == s[..i] + [s[i]] + s[i + 1..]
    ensures multiset(s[..i] + s[i + 1..]) == multiset(s) - multiset{s[i]}
  {
    assert s == s[..i] + [s[i]] + s[i + 1..];
    assert multiset(s) == multiset(s[..i]) + multiset{s[i]} + multiset(s[i + 1..]);
  }

  /** Taking the element at `i` out of `t` takes its image out of the
      multiset of images. */
  lemma ImageRemove<T, U>(t: seq<T>, i: nat, g: T -> U)
    requires i < |t|
    ensures multiset(Image(t, g)) == multiset(Image(t[..i] + t[i + 1..], g)) + multiset{g(t[i])}
  {
    var a, x, b := t[..i], t[i], t[i + 1..];
    RemoveAt(t, i);
    ImageAppend(a, b, g);
    ImageAppend(a, [x], g);
    ImageAppend(a + [x], b, g);
    assert Image([x], g) == [g(x)] by {
      assert [x][..0] == [];
    }
    var ia, ib := Image(a, g), Image(b, g);
    assert Image(t, g) == ia + [g(x)] + ib;
    calc {
      multiset(Image(t, g));
      multiset(ia + [g(x)] + ib);
      multiset(ia + [g(x)]) + multiset(ib);
      multiset(ia) + multiset(ib) + multiset{g(x)};
      multiset(ia + ib) + multiset{g(x)};
    }
  }

  /** Reordering the elements reorders their images. */
  lemma {:induction false} ImagePermutation<T, U>(s: seq<T>, t: seq<T>, g: T -> U)
    requires multiset(s) == multiset(t)
    ensures multiset(Image(s, g)) == multiset(Image(t, g))
    decreases |s|
  {
    if s == [] {
      assert |t| == |multiset(t)| == 0;
    } else {
      var x, init := s[|s| - 1], s[..|s| - 1];
      RemoveAt(s, |s| - 1);
      assert x in multiset(t);
      var i :| 0 <= i < |t| && t[i] == x;
      RemoveAt(t, i);
      ImageRemove(t, i, g);
      ImagePermutation(init, t[..i] + t[i + 1..], g);
      assert Image(s, g) == Image(init, g) + [g(x)];
    }
  }

  /** Weighing is the image of the responses under the first-row lookup. */
  lemma WeightedIsImage(primary: seq<PrimaryRow>, rs: seq<Entry>)
    requires AllHaveRows(primary, rs)
    ensures Weighted(primary, rs) == Image(rs, WeighOrZero(primary))
  {
    WeightedAt(primary, rs);
    ImageAt(rs, WeighOrZero(primary));
  }

  /** `Weigh` made total, for use as a plain function value; only responses
      that have rows ever reach it. */
  function WeighOrZero(primary: seq<PrimaryRow>): Entry -> WeightedScore {
    (e: Entry) => if HasRow(primary, e.id) then Weigh(primary, e) else WeightedScore(e.score, 0.0)
  }

  /** Responses that are a reordering of each other weigh to pairs that are
      a reordering of each other. */
  lemma WeightedPermutation(primary: seq<PrimaryRow>, rs: seq<Entry>, qs: seq<Entry>)
    requires AllHaveRows(primary, rs) && multiset(rs) == multiset(qs)
    ensures AllHaveRows(primary, qs)
    ensures multiset(Weighted(primary, rs)) == multiset(Weighted(primary, qs))
  {
    PermutedHaveRows(primary, rs, qs);
    WeightedIsImage(primary, rs);
    WeightedIsImage(primary, qs);
    ImagePermutation(rs, qs, WeighOrZero(primary));
  }

  /** The summary's percentage depends only on which responses there are,
      not on the order the dictionary yields them in. */
  lemma ResponsesOrderIndependent(primary: seq<PrimaryRow>, rs: seq<Entry>, qs: seq<Entry>)
    requires AllHaveRows(primary, rs) && multiset(rs) == multiset(qs)
    requires Possible(Weighted(primary, rs)) != 0.0
    ensures AllHaveRows(primary, qs)
    ensures Possible(Weighted(primary, qs)) == Possible(Weighted(primary, rs))
    ensures Percentage(Weighted(primary, qs)) == Percentage(Weighted(primary, rs))
  {
    WeightedPermutation(primary, rs, qs);
    PercentageOrderIndependent(Weighted(primary, rs), Weighted(primary, qs));
  }

  /** All answers at the top of the scale earn every possible point. */
  lemma {:induction false} AllTopEarnsAll(ps: seq<WeightedScore>)
    requires forall j :: 0 <= j < |ps| ==> ps[j].score == 3
    ensures Earned(ps) == Possible(ps)
  {
    if ps != [] {
      AllTopEarnsAll(ps[..|ps| - 1]);
    }
  }

  /** All answers at the bottom of the scale earn a third of the points. */
  lemma {:induction false} AllLowestEarnsThird(ps: seq<WeightedScore>)
    requires forall j :: 0 <= j < |ps| ==> ps[j].score == 1
    ensures 3.0 * Earned(ps) == Possible(ps)
  {
    if ps != [] {
      AllLowestEarnsThird(ps[..|ps| - 1]);
    }
  }

  lemma AllTopIsHundred(ps: seq<WeightedScore>)
    requires forall j :: 0 <= j < |ps| ==> ps[j].score == 3
    requires Possible(ps) != 0.0
    ensures Percentage(ps) == 100.0
  {
    AllTopEarnsAll(ps);
    assert Earned(ps) / Possible(ps) == 1.0;
  }

  lemma AllLowestIsThird(ps: seq<WeightedScore>)
    requires forall j :: 0 <= j < |ps| ==> ps[j].score == 1
    requires Possible(ps) != 0.0
    ensures Percentage(ps) == 100.0 / 3.0
  {
    AllLowestEarnsThird(ps);
    var e, p := Earned(ps), Possible(ps);
    assert Percentage(ps) * p == 100.0 * e;
  }

  /** Every response has score `v`. */
  predicate AllAnswered(rs: seq<Entry>, v: Score) {
    forall j :: 0 <= j < |rs| ==> rs[j].score == v
  }

  /** Responses all answered 3 score exactly 100. */
  lemma ResponsesAllTopIsHundred(primary: seq<PrimaryRow>, rs: seq<Entry>)
    requires AllHaveRows(primary, rs) && Possible(Weighted(primary, rs)) != 0.0
    requires AllAnswered(rs, 3)
    ensures Percentage(Weighted(primary, rs)) == 100.0
  {
    WeightedAt(primary, rs);
    AllTopIsHundred(Weighted(primary, rs));
  }

  /** Responses all answered 1 score exactly 100/3. */
  lemma ResponsesAllLowestIsThird(primary: seq<PrimaryRow>, rs: seq<Entry>)
    requires AllHaveRows(primary, rs) && Possible(Weighted(primary, rs)) != 0.0
    requires AllAnswered(rs, 1)
    ensures Percentage(Weighted(primary, rs)) == 100.0 / 3.0
  {
    WeightedAt(primary, rs);
    AllLowestIsThird(Weighted(primary, rs));
  }

  /** The warning shown for an item answered 1. */
  datatype Warning = Warning(category: string, advice: string)

  /** Category and follow-up advice of the first row with the id. */
  function WarningFor(primary: seq<PrimaryRow>, id: Id): Warning
    requires HasRow(primary, id)
  {
    var row := primary[FindRow(primary, id)];
    Warning(row.category, row.advice)
  }

  /** The warnings of the summary, in response order. */
  function Warnings(primary: seq<PrimaryRow>, rs: seq<Entry>): seq<Warning>
    requires AllHaveRows(primary, rs)
  {
    if rs == [] then []
    else
      var last := rs[|rs| - 1];
      Warnings(primary, rs[..|rs| - 1]) + if last.score == 1 then [WarningFor(primary, last.id)] else []
  }

  /** How many responses are at the bottom of the scale. */
  function CountLowest(rs: seq<Entry>): nat {
    if rs == [] then 0
    else CountLowest(rs[..|rs| - 1]) + if rs[|rs| - 1].score == 1 then 1 else 0
  }

  /** There is one warning per response answered 1. */
  lemma {:induction false} WarningsCount(primary: seq<PrimaryRow>, rs: seq<Entry>)
    requires AllHaveRows(primary, rs)
    ensures |Warnings(primary, rs)| == CountLowest(rs)
  {
    if rs != [] {
      WarningsCount(primary, rs[..|rs| - 1]);
    }
  }

  /** Every response answered 1 gives its warning, in response order: the
      response at `i` gives the warning that follows those of the responses
      before it. */
  lemma {:induction false} WarningsOfLowest(primary: seq<PrimaryRow>, rs: seq<Entry>)
    requires AllHaveRows(primary, rs)
    ensures forall i :: 0 <= i < |rs| && rs[i].score == 1 ==>
      CountLowest(rs[..i]) < |Warnings(primary, rs)| &&
      Warnings(primary, rs)[CountLowest(rs[..i])] == WarningFor(primary, rs[i].id)
  {
    if rs != [] {
      var init := rs[..|rs| - 1];
      WarningsOfLowest(primary, init);
      WarningsCount(primary, init);
      var ws, ws' := Warnings(primary, init), Warnings(primary, rs);
      assert ws' == ws + if rs[|rs| - 1].score == 1 then [WarningFor(primary, rs[|rs| - 1].id)] else [];
      forall i | 0 <= i < |rs| && rs[i].score == 1
        ensures CountLowest(rs[..i]) < |ws'| && ws'[CountLowest(rs[..i])] == WarningFor(primary, rs[i].id) {
        if i < |rs| - 1 {
          assert rs[..i] == init[..i];
          assert init[i] == rs[i];
        } else {
          assert rs[..i] == init;
        }
      }
    }
  }

  /** Some response answered 1 gives warning `w`. */
  predicate WarnedFor(primary: seq<PrimaryRow>, rs: seq<Entry>, w: Warning)
    requires AllHaveRows(primary, rs)
  {
    exists i :: 0 <= i < |rs| && rs[i].score == 1 && w == WarningFor(primary, rs[i].id)
  }

  /** Every warning comes from a response answered 1. */
  lemma {:induction false} WarningsOnlyFromLowest(primary: seq<PrimaryRow>, rs: seq<Entry>)
    requires AllHaveRows(primary, rs)
    ensures forall w :: 0 <= w < |Warnings(primary, rs)| ==> WarnedFor(primary, rs, Warnings(primary, rs)[w])
  {
    if rs != [] {
      var init := rs[..|rs| - 1];
      WarningsOnlyFromLowest(primary, init);
      var ws, ws' := Warnings(primary, init), Warnings(primary, rs);
      assert ws' == ws + if rs[|rs| - 1].score == 1 then [WarningFor(primary, rs[|rs| - 1].id)] else [];
      forall w | 0 <= w < |ws'| ensures WarnedFor(primary, rs, ws'[w]) {
        if w < |ws| {
          assert WarnedFor(primary, init, ws[w]);
          var i :| 0 <= i < |init| && init[i].score == 1 && ws[w] == WarningFor(primary, init[i].id);
          assert rs[i] == init[i];
          assert ws'[w] == ws[w];
        } else {
          assert rs[|rs| - 1].score == 1 && ws'[w] == WarningFor(primary, rs[|rs| - 1].id);
        }
      }
    }
  }

  /** The three messages the summary can end with. */
  datatype Tier = WellDeveloped | NeedsImprovement | SignificantGaps

  /** The branch the summary takes on the percentage. */
  function Classify(pct: real): Tier {
    if pct > 80.0 then WellDeveloped
    else if pct > 50.0 then NeedsImprovement
    else SignificantGaps
  }

  /** The tiers are bounded by strict comparisons: above 80 is the top tier,
      above 50 up to and including 80 the middle one, 50 and below the
      bottom one. */
  lemma ClassifyThresholds(pct: real)
    ensures Classify(pct) == WellDeveloped <==> pct > 80.0
    ensures Classify(pct) == NeedsImprovement <==> 50.0 < pct <= 80.0
    ensures Classify(pct) == SignificantGaps <==> pct <= 50.0
    ensures Classify(80.0) == NeedsImprovement && Classify(50.0) == SignificantGaps
  {
  }

  function Rank(t: Tier): nat {
    match t
    case SignificantGaps => 0
    case NeedsImprovement => 1
    case WellDeveloped => 2
  }

  /** A higher percentage never gives a lower tier. */
  lemma ClassifyMonotone(p: real, q: real)
    requires p <= q
    ensures Rank(Classify(p)) <= Rank(Classify(q))
  {
  }

  /** The tier of a positive-weight assessment can be decided without
      dividing: compare 100 times the earned points with 80 and 50 times
      the possible points. */
  lemma ClassifyWithoutDivision(ps: seq<WeightedScore>)
    requires Possible(ps) > 0.0
    ensures Classify(Percentage(ps)) == WellDeveloped <==> 100.0 * Earned(ps) > 80.0 * Possible(ps)
    ensures Classify(Percentage(ps)) == SignificantGaps <==> 100.0 * Earned(ps) <= 50.0 * Possible(ps)
  {
    AboveWithoutDivision(Earned(ps), Possible(ps), 80.0);
    AboveWithoutDivision(Earned(ps), Possible(ps), 50.0);
  }

  /** For a positive divisor, `e / p * 100 > c` is `100 * e > c * p`. */
  lemma AboveWithoutDivision(e: real, p: real, c: real)
    requires p > 0.0
    ensures e / p * 100.0 > c <==> 100.0 * e > c * p
  {
    var q := e / p;
    assert q * p == e;
    var d := q * 100.0 - c;
    assert d * p == 100.0 * e - c * p;
    if d > 0.0 {
      assert d * p > 0.0;
    } else {
      assert (-d) * p >= 0.0;
    }
  }

  /** What the summary shows: the percentage, the warnings and the tier. */
  datatype Feedback = Feedback(percentage: real, warnings: seq<Warning>, tier: Tier)

  /** `provide_feedback`: one pass over the responses accumulates the earned
      and the possible points and collects a warning for every response
      answered 1; the percentage then picks the tier. Needs a row for every
      response id and a non-zero possible total, as the division does. */
  method ProvideFeedback(primary: seq<PrimaryRow>, rs: seq<Entry>) returns (fb: Feedback)
    requires AllHaveRows(primary, rs)
    requires Possible(Weighted(primary, rs)) != 0.0
    ensures fb.percentage == Percentage(Weighted(primary, rs))
    ensures fb.warnings == Warnings(primary, rs)
    ensures fb.tier == Classify(fb.percentage)
    ensures AllAnswered(rs, 3) ==> fb.percentage == 100.0 && fb.tier == WellDeveloped
    ensures AllAnswered(rs, 1) ==> fb.percentage == 100.0 / 3.0 && fb.tier == SignificantGaps
  {
    var total := 0.0;
    var max := 0.0;
    var warnings := [];
    var i := 0;
    while i < |rs|
      invariant i <= |rs| && AllHaveRows(primary, rs[..i])
      invariant total == Earned(Weighted(primary, rs[..i]))
      invariant max == Possible(Weighted(primary, rs[..i]))
      invariant warnings == Warnings(primary, rs[..i])
    {
      var entry := rs[i];
      var row := primary[FindRow(primary, entry.id)];
      SummaryStep(primary, rs, i);
      // `score * weight` and `3 * weight`, written through `EarnedBy` and
      // `PossibleFor` so that each step matches the invariants term for term.
      var item := WeightedScore(entry.score, row.weight);
      total := total + EarnedBy(item);
      max := max + PossibleFor(item);
      if entry.score == 1 {
        warnings := warnings + [Warning(row.category, row.advice)];
      }
      i := i + 1;
    }
    assert rs[..i] == rs;
    var pct := total / max * 100.0;
    fb := Feedback(pct, warnings, Classify(pct));
    if AllAnswered(rs, 3) {
      ResponsesAllTopIsHundred(primary, rs);
    }
    if AllAnswered(rs, 1) {
      ResponsesAllLowestIsThird(primary, rs);
    }
  }

  /** What one more round of the summary loop adds. */
  lemma SummaryStep(primary: seq<PrimaryRow>, rs: seq<Entry>, i: nat)
    requires AllHaveRows(primary, rs) && i < |rs|
    ensures AllHaveRows(primary, rs[..i + 1])
    ensures Earned(Weighted(primary, rs[..i + 1])) == Earned(Weighted(primary, rs[..i])) + EarnedBy(Weigh(primary, rs[i]))
    ensures Possible(Weighted(primary, rs[..i + 1])) == Possible(Weighted(primary, rs[..i])) + PossibleFor(Weigh(primary, rs[i]))
    ensures Warnings(primary, rs[..i + 1]) ==
      Warnings(primary, rs[..i]) + if rs[i].score == 1 then [WarningFor(primary, rs[i].id)] else []
  {
    assert rs[..i + 1][..i] == rs[..i];
    var ps := Weighted(primary, rs[..i + 1]);
    assert ps == Weighted(primary, rs[..i]) + [Weigh(primary, rs[i])];
    assert ps[..|ps| - 1] == Weighted(primary, rs[..i]);
  }
}
