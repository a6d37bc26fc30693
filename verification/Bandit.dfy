/** The UCB1 route selector: saturating pull counters and the choice they lead to. A finite
    score is a real number; its exploration bonus is an unspecified function of the counters. */
module Bandit {
  import opened Wire

  const U32_MAX: nat := 0xFFFF_FFFF
  const U64_MAX: nat := 0xFFFF_FFFF_FFFF_FFFF

  datatype RouteFamily = DirectState | ExactAtom | Hybrid

  function SaturatingAdd(a: nat, b: nat, limit: nat): nat {
    if a + b > limit then limit else a + b
  }

  datatype ArmStats = ArmStats(successes: nat, failures: nat) {
    function Pulls(): nat {
      SaturatingAdd(successes, failures, U64_MAX)
    }
  }

  const EMPTY_ARM := ArmStats(0, 0)

  datatype Stats = Stats(arms: map<RouteFamily, ArmStats>, totalPulls: nat) {
    function Arm(f: RouteFamily): ArmStats {
      if f in arms then arms[f] else EMPTY_ARM
    }

    function PullsFor(f: RouteFamily): nat {
      if f in arms then arms[f].Pulls() else 0
    }

    function SummedPulls(): nat {
      PullsFor(DirectState) + PullsFor(ExactAtom) + PullsFor(Hybrid)
    }

    ghost predicate InRange() {
      totalPulls <= U64_MAX && forall f :: f in arms ==> arms[f].successes <= U32_MAX && arms[f].failures <= U32_MAX
    }
  }

  const FRESH := Stats(map[], 0)

  // ---- Recording ----

  /** The counters after so many successes and failures of one family. */
  function Recorded(s: Stats, f: RouteFamily, successes: nat, failures: nat): Stats {
    var arm := s.Arm(f);
    var pulled := ArmStats(
      SaturatingAdd(arm.successes, successes, U32_MAX),
      SaturatingAdd(arm.failures, failures, U32_MAX));
    var added := SaturatingAdd(successes, failures, U64_MAX);
    Stats(s.arms[f := pulled], SaturatingAdd(s.totalPulls, added, U64_MAX))
  }

  function RecordedOne(s: Stats, f: RouteFamily, success: bool): Stats {
    if success then Recorded(s, f, 1, 0) else Recorded(s, f, 0, 1)
  }

  /** Outcomes recorded one after the other. */
  function RecordedAll(s: Stats, f: RouteFamily, outcomes: seq<bool>): Stats {
    if outcomes == [] then s
    else RecordedOne(RecordedAll(s, f, outcomes[..|outcomes| - 1]), f, outcomes[|outcomes| - 1])
  }

  function CountOf(outcomes: seq<bool>, success: bool): (n: nat)
    ensures n <= |outcomes|
  {
    if outcomes == [] then 0
    else CountOf(outcomes[..|outcomes| - 1], success) + if outcomes[|outcomes| - 1] == success then 1 else 0
  }

  /** The same counters, apart from arms that exist without a pull. */
  ghost predicate SameCounters(s: Stats, t: Stats) {
    s.totalPulls == t.totalPulls && forall f :: s.Arm(f) == t.Arm(f)
  }

  /** A bulk record leaves the counters of its single records in any order. */
  lemma {:induction false} BulkIsSingles(s: Stats, f: RouteFamily, outcomes: seq<bool>)
    requires s.InRange()
    requires CountOf(outcomes, true) <= U32_MAX && CountOf(outcomes, false) <= U32_MAX
    ensures SameCounters(Recorded(s, f, CountOf(outcomes, true), CountOf(outcomes, false)), RecordedAll(s, f, outcomes))
  {
    hide CountOf;
    if outcomes == [] {
      CountNone();
    } else {
      var before, last := outcomes[..|outcomes| - 1], outcomes[|outcomes| - 1];
      CountStep(outcomes);
      BulkIsSingles(s, f, before);
      OneMore(s, f, CountOf(before, true), CountOf(before, false), last);
      SameAfterOne(Recorded(s, f, CountOf(before, true), CountOf(before, false)), RecordedAll(s, f, before), f, last);
    }
  }

  lemma CountNone()
    ensures CountOf([], true) == 0 && CountOf([], false) == 0
  {
  }

  lemma CountStep(outcomes: seq<bool>)
    requires outcomes != []
    ensures forall x :: CountOf(outcomes, x) ==
              CountOf(outcomes[..|outcomes| - 1], x) + if outcomes[|outcomes| - 1] == x then 1 else 0
  {
  }

  lemma OneMore(s: Stats, f: RouteFamily, successes: nat, failures: nat, success: bool)
    requires s.InRange() && successes <= U32_MAX && failures <= U32_MAX
    ensures SameCounters(RecordedOne(Recorded(s, f, successes, failures), f, success),
                         Recorded(s, f, successes + if success then 1 else 0, failures + if success then 0 else 1))
  {
  }

  lemma SameAfterOne(s: Stats, t: Stats, f: RouteFamily, success: bool)
    requires SameCounters(s, t)
    ensures SameCounters(RecordedOne(s, f, success), RecordedOne(t, f, success))
  {
    forall g ensures RecordedOne(s, f, success).Arm(g) == RecordedOne(t, f, success).Arm(g) {
      assert s.Arm(g) == t.Arm(g) && s.Arm(f) == t.Arm(f);
    }
  }

  /** Recording adds exactly what was recorded to the summed pulls, unless an arm's counter saturates,
      and never more; the total covers the arms. */
  lemma RecordingKeepsTotal(s: Stats, f: RouteFamily, successes: nat, failures: nat)
    requires s.InRange() && successes <= U32_MAX && failures <= U32_MAX
    requires s.SummedPulls() <= s.totalPulls
    ensures var t := Recorded(s, f, successes, failures);
            && t.InRange() && t.SummedPulls() <= t.totalPulls
            && (s.SummedPulls() == s.totalPulls ==>
                  (t.SummedPulls() == t.totalPulls <==>
                     s.Arm(f).successes + successes <= U32_MAX && s.Arm(f).failures + failures <= U32_MAX))
            && (s.SummedPulls() < s.totalPulls ==> t.SummedPulls() < t.totalPulls)
  {
    hide Recorded, Stats.InRange, Stats.SummedPulls, Stats.Arm;
    SumAfter(s, f, successes, failures);
    SumBounded(Recorded(s, f, successes, failures));
  }

  /** One call of record_outcomes; record_outcome is the call with one outcome. */
  datatype Outcomes = Outcomes(family: RouteFamily, successes: nat, failures: nat)

  function RecordedRun(calls: seq<Outcomes>): Stats {
    if calls == [] then FRESH
    else
      var last := calls[|calls| - 1];
      Recorded(RecordedRun(calls[..|calls| - 1]), last.family, last.successes, last.failures)
  }

  /** The counts are the 32-bit words the source passes. */
  predicate InWords(calls: seq<Outcomes>) {
    forall i :: 0 <= i < |calls| ==> calls[i].successes <= U32_MAX && calls[i].failures <= U32_MAX
  }

  /** The call takes one of its arm's counters beyond its width. */
  predicate Overflows(s: Stats, call: Outcomes) {
    s.Arm(call.family).successes + call.successes > U32_MAX || s.Arm(call.family).failures + call.failures > U32_MAX
  }

  ghost predicate NeverOverflowed(calls: seq<Outcomes>) {
    forall i :: 0 <= i < |calls| ==> !Overflows(RecordedRun(calls[..i]), calls[i])
  }

  /** Over every run from a fresh selector the summed arm pulls never exceed the total, and equal
      it if and only if no call of the run overflowed a counter. */
  lemma {:induction false} TotalsEqualUntilOverflow(calls: seq<Outcomes>)
    requires InWords(calls)
    ensures var s := RecordedRun(calls);
            && s.InRange() && s.SummedPulls() <= s.totalPulls
            && (s.SummedPulls() == s.totalPulls <==> NeverOverflowed(calls))
  {
    hide Recorded, Stats.InRange, Stats.SummedPulls;
    if calls == [] {
      FreshTotals();
    } else {
      var before, last := calls[..|calls| - 1], calls[|calls| - 1];
      TotalsEqualUntilOverflow(before);
      RecordingKeepsTotal(RecordedRun(before), last.family, last.successes, last.failures);
      OverflowSnoc(before, last);
      assert calls == before + [last];
    }
  }

  lemma FreshTotals()
    ensures FRESH.InRange() && FRESH.SummedPulls() == FRESH.totalPulls
  {
  }

  lemma OverflowSnoc(before: seq<Outcomes>, last: Outcomes)
    ensures NeverOverflowed(before + [last]) <==> NeverOverflowed(before) && !Overflows(RecordedRun(before), last)
  {
    hide Overflows, RecordedRun;
    var calls := before + [last];
    assert calls[..|before|] == before;
    forall i | 0 <= i < |before| ensures calls[..i] == before[..i] && calls[i] == before[i] {
    }
  }

  /** Once the sum and the total differ they never meet again. */
  lemma DifferenceStays(calls: seq<Outcomes>, n: nat)
    requires InWords(calls) && n <= |calls|
    requires RecordedRun(calls[..n]).SummedPulls() != RecordedRun(calls[..n]).totalPulls
    ensures RecordedRun(calls).SummedPulls() < RecordedRun(calls).totalPulls
  {
    hide RecordedRun, Overflows, Stats.SummedPulls, Stats.InRange;
    TotalsEqualUntilOverflow(calls[..n]);
    TotalsEqualUntilOverflow(calls);
    assert forall i :: 0 <= i < n ==> calls[..n][..i] == calls[..i] && calls[..n][i] == calls[i];
  }

  /** What recording does to the sum: the family's two counters are the only ones that move. */
  lemma SumAfter(s: Stats, f: RouteFamily, successes: nat, failures: nat)
    requires s.InRange() && successes <= U32_MAX && failures <= U32_MAX
    ensures var t, arm := Recorded(s, f, successes, failures), s.Arm(f);
            && t.InRange()
            && arm.successes <= U32_MAX && arm.failures <= U32_MAX
            && t.totalPulls == SaturatingAdd(s.totalPulls, successes + failures, U64_MAX)
            && t.SummedPulls() == s.SummedPulls() - arm.successes - arm.failures
                 + SaturatingAdd(arm.successes, successes, U32_MAX) + SaturatingAdd(arm.failures, failures, U32_MAX)
  {
    hide SaturatingAdd;
    var arm := s.Arm(f);
    var t := Recorded(s, f, successes, failures);
    SaturatingAddIs(arm.successes, successes, U32_MAX);
    SaturatingAddIs(arm.failures, failures, U32_MAX);
    SaturatingAddIs(successes, failures, U64_MAX);
    SaturatingAddIs(s.totalPulls, successes + failures, U64_MAX);
    PullsAre(s);
    PullsAre(t);
    assert forall g :: g != f ==> t.Arm(g) == s.Arm(g);
  }

  lemma SumBounded(s: Stats)
    requires s.InRange()
    ensures s.SummedPulls() <= 6 * U32_MAX < U64_MAX && s.totalPulls <= U64_MAX
  {
    PullsAre(s);
  }

  lemma PullsAre(s: Stats)
    requires s.InRange()
    ensures forall g: RouteFamily :: s.PullsFor(g) == s.Arm(g).successes + s.Arm(g).failures
    ensures forall g: RouteFamily :: s.Arm(g).successes <= U32_MAX && s.Arm(g).failures <= U32_MAX
  {
  }

  lemma SaturatingAddIs(a: nat, b: nat, limit: nat)
    ensures SaturatingAdd(a, b, limit) == if a + b > limit then limit else a + b
  {
  }

  // ---- The counters as sums over the run ----

  /** All successes, or all failures, recorded for the family. */
  function Told(calls: seq<Outcomes>, f: RouteFamily, success: bool): nat {
    if calls == [] then 0
    else
      var last := calls[|calls| - 1];
      Told(calls[..|calls| - 1], f, success) +
      if last.family != f then 0 else if success then last.successes else last.failures
  }

  /** Every counter is what the run recorded for its family, up to its width, and no other family moves it. */
  lemma {:induction false} CountersAreSums(calls: seq<Outcomes>, f: RouteFamily)
    ensures var arm, won, lost := RecordedRun(calls).Arm(f), Told(calls, f, true), Told(calls, f, false);
            && arm.successes == (if won <= U32_MAX then won else U32_MAX)
            && arm.failures == (if lost <= U32_MAX then lost else U32_MAX)
  {
    if calls != [] {
      CountersAreSums(calls[..|calls| - 1], f);
    }
  }

  /** All outcomes recorded, whatever the family. */
  function AllTold(calls: seq<Outcomes>): nat {
    if calls == [] then 0
    else AllTold(calls[..|calls| - 1]) + calls[|calls| - 1].successes + calls[|calls| - 1].failures
  }

  /** The total is everything the run recorded, up to its width. */
  lemma {:induction false} TotalIsSum(calls: seq<Outcomes>)
    ensures RecordedRun(calls).totalPulls == if AllTold(calls) <= U64_MAX then AllTold(calls) else U64_MAX
  {
    if calls != [] {
      TotalIsSum(calls[..|calls| - 1]);
    }
  }

  /** A single outcome is a call with one success or one failure. */
  lemma SingleIsCall(s: Stats, f: RouteFamily, success: bool)
    ensures var call := if success then Outcomes(f, 1, 0) else Outcomes(f, 0, 1);
            RecordedOne(s, f, success) == Recorded(s, call.family, call.successes, call.failures)
  {
  }

  // ---- Scores and the pick ----

  datatype Score = Finite(value: real) | Infinite

  predicate Greater(a: Score, b: Score) {
    match (a, b)
    case (Infinite, Finite(_)) => true
    case (Finite(x), Finite(y)) => x > y
    case (_, Infinite) => false
  }

  function ScoreOf(bonus: (nat, nat) -> real, s: Stats, f: RouteFamily): Option<Score> {
    if f !in s.arms then None
    else
      var n := s.arms[f].Pulls();
      if n == 0 then Some(Infinite)
      else
        var mean := s.arms[f].successes as real / n as real;
        Some(Finite(if s.totalPulls <= 1 then mean else mean + bonus(s.totalPulls, n)))
  }

  function Seen(bonus: (nat, nat) -> real, s: Stats, f: RouteFamily): Score {
    var score := ScoreOf(bonus, s, f);
    if score.Some? then score.value else Infinite
  }

  /** Keeping the later of two candidates unless the earlier one is strictly greater. */
  function BestIndex(bonus: (nat, nat) -> real, s: Stats, candidates: seq<RouteFamily>): (i: nat)
    requires candidates != []
    ensures i < |candidates|
  {
    var last := |candidates| - 1;
    if last == 0 then 0
    else
      var best := BestIndex(bonus, s, candidates[..last]);
      if Greater(Seen(bonus, s, candidates[best]), Seen(bonus, s, candidates[last])) then best else last
  }

  function Pick(bonus: (nat, nat) -> real, s: Stats, candidates: seq<RouteFamily>): Option<RouteFamily> {
    if candidates == [] then None else Some(candidates[BestIndex(bonus, s, candidates)])
  }

  /** Candidate `i` is not beaten, and beats every later one. */
  ghost predicate LastBest(bonus: (nat, nat) -> real, s: Stats, candidates: seq<RouteFamily>, i: nat) {
    && i < |candidates|
    && (forall j :: 0 <= j < |candidates| ==> !Greater(Seen(bonus, s, candidates[j]), Seen(bonus, s, candidates[i])))
    && forall j :: i < j < |candidates| ==> Greater(Seen(bonus, s, candidates[i]), Seen(bonus, s, candidates[j]))
  }

  /** The pick is the last of the greatest scores, and nothing else is. */
  lemma {:induction false} PickIsLastBest(bonus: (nat, nat) -> real, s: Stats, candidates: seq<RouteFamily>, i: nat)
    requires candidates != []
    ensures LastBest(bonus, s, candidates, i) <==> i == BestIndex(bonus, s, candidates)
  {
    hide Seen;
    BestIndexIsLastBest(bonus, s, candidates);
    var best := BestIndex(bonus, s, candidates);
    if i < best && LastBest(bonus, s, candidates, i) {
      assert false;
    }
    if best < i < |candidates| && LastBest(bonus, s, candidates, i) {
      assert false;
    }
  }

  lemma {:induction false} BestIndexIsLastBest(bonus: (nat, nat) -> real, s: Stats, candidates: seq<RouteFamily>)
    requires candidates != []
    ensures LastBest(bonus, s, candidates, BestIndex(bonus, s, candidates))
  {
    hide Seen;
    if |candidates| > 1 {
      BestIndexIsLastBest(bonus, s, candidates[..|candidates| - 1]);
    }
  }

  // ---- What decides between two pulled candidates ----

  /** The score of a pulled arm is its share of successes and, from the second pull on, the bonus. */
  lemma ScoreIsShare(bonus: (nat, nat) -> real, s: Stats, f: RouteFamily)
    requires s.InRange() && s.PullsFor(f) > 0
    ensures var n, extra := s.PullsFor(f), if s.totalPulls <= 1 then 0.0 else bonus(s.totalPulls, s.PullsFor(f));
            && Seen(bonus, s, f).Finite?
            && (Seen(bonus, s, f).value - extra) * n as real == s.Arm(f).successes as real
            && n == s.Arm(f).successes + s.Arm(f).failures
  {
    var n, won := s.PullsFor(f), s.Arm(f).successes;
    assert (won as real / n as real) * n as real == won as real;
  }

  lemma BeatenIsNotPicked(bonus: (nat, nat) -> real, s: Stats, candidates: seq<RouteFamily>, i: nat, j: nat)
    requires i < |candidates| && j < |candidates|
    requires Greater(Seen(bonus, s, candidates[j]), Seen(bonus, s, candidates[i]))
    ensures Pick(bonus, s, candidates) != Some(candidates[i])
  {
    hide Seen, Greater;
    BestIndexIsLastBest(bonus, s, candidates);
  }

  lemma ShareOrder(x: real, y: real, n: nat, m: nat, a: nat, b: nat)
    requires n > 0 && m > 0 && x * n as real == a as real && y * m as real == b as real
    ensures a * m < b * n <==> x < y
  {
    var p, q := n as real, m as real;
    assert (a * m) as real == (x * p) * q && (b * n) as real == (y * q) * p;
    assert (x * p) * q == x * (p * q) && (y * q) * p == y * (p * q);
    assert p * q > 0.0;
    if x < y {
      assert (y - x) * (p * q) > 0.0;
    } else {
      assert (x - y) * (p * q) >= 0.0;
    }
  }

  lemma MoreOfEach(a: nat, b: nat, n: nat)
    requires a < b && n > 0
    ensures a * n < b * n
  {
  }

  /** Of two candidates pulled equally often, the one with fewer successes is not picked. */
  lemma FewerSuccessesLose(bonus: (nat, nat) -> real, s: Stats, candidates: seq<RouteFamily>, i: nat, j: nat)
    requires s.InRange() && i < |candidates| && j < |candidates|
    requires s.PullsFor(candidates[i]) == s.PullsFor(candidates[j]) > 0
    requires s.Arm(candidates[i]).successes < s.Arm(candidates[j]).successes
    ensures Pick(bonus, s, candidates) != Some(candidates[i])
  {
    hide Seen, Pick, Stats.Arm, Stats.InRange, Stats.PullsFor;
    var a, b, n := s.Arm(candidates[i]).successes, s.Arm(candidates[j]).successes, s.PullsFor(candidates[i]);
    var extra := if s.totalPulls <= 1 then 0.0 else bonus(s.totalPulls, n);
    ScoreIsShare(bonus, s, candidates[i]);
    ScoreIsShare(bonus, s, candidates[j]);
    var x, y := Seen(bonus, s, candidates[i]).value, Seen(bonus, s, candidates[j]).value;
    MoreOfEach(a, b, n);
    ShareOrder(x - extra, y - extra, n, n, a, b);
    BeatenIsNotPicked(bonus, s, candidates, i, j);
  }

  /** Up to the first pull in all, the share of successes alone decides between pulled candidates. */
  lemma ShareDecidesEarly(bonus: (nat, nat) -> real, s: Stats, candidates: seq<RouteFamily>, i: nat, j: nat)
    requires s.InRange() && s.totalPulls <= 1 && i < |candidates| && j < |candidates|
    requires s.PullsFor(candidates[i]) > 0 && s.PullsFor(candidates[j]) > 0
    requires s.Arm(candidates[i]).successes * s.PullsFor(candidates[j]) <
             s.Arm(candidates[j]).successes * s.PullsFor(candidates[i])
    ensures Pick(bonus, s, candidates) != Some(candidates[i])
  {
    hide Seen, Pick, Stats.Arm, Stats.InRange, Stats.PullsFor;
    ScoreIsShare(bonus, s, candidates[i]);
    ScoreIsShare(bonus, s, candidates[j]);
    ShareOrder(Seen(bonus, s, candidates[i]).value, Seen(bonus, s, candidates[j]).value,
               s.PullsFor(candidates[i]), s.PullsFor(candidates[j]),
               s.Arm(candidates[i]).successes, s.Arm(candidates[j]).successes);
    BeatenIsNotPicked(bonus, s, candidates, i, j);
  }

  /** Between equal shares of successes the larger bonus wins. */
  lemma BonusDecidesTies(bonus: (nat, nat) -> real, s: Stats, candidates: seq<RouteFamily>, i: nat, j: nat)
    requires s.InRange() && s.totalPulls > 1 && i < |candidates| && j < |candidates|
    requires s.PullsFor(candidates[i]) > 0 && s.PullsFor(candidates[j]) > 0
    requires s.Arm(candidates[i]).successes * s.PullsFor(candidates[j]) ==
             s.Arm(candidates[j]).successes * s.PullsFor(candidates[i])
    requires bonus(s.totalPulls, s.PullsFor(candidates[i])) < bonus(s.totalPulls, s.PullsFor(candidates[j]))
    ensures Pick(bonus, s, candidates) != Some(candidates[i])
  {
    hide Seen, Pick, Stats.Arm, Stats.InRange, Stats.PullsFor;
    var n, m := s.PullsFor(candidates[i]), s.PullsFor(candidates[j]);
    ScoreIsShare(bonus, s, candidates[i]);
    ScoreIsShare(bonus, s, candidates[j]);
    var x := Seen(bonus, s, candidates[i]).value - bonus(s.totalPulls, n);
    var y := Seen(bonus, s, candidates[j]).value - bonus(s.totalPulls, m);
    ShareOrder(x, y, n, m, s.Arm(candidates[i]).successes, s.Arm(candidates[j]).successes);
    ShareOrder(y, x, m, n, s.Arm(candidates[j]).successes, s.Arm(candidates[i]).successes);
    BeatenIsNotPicked(bonus, s, candidates, i, j);
  }

  // ---- Unpulled candidates ----

  lemma InfiniteExactlyWhenUnpulled(bonus: (nat, nat) -> real, s: Stats, f: RouteFamily)
    ensures Seen(bonus, s, f) == Infinite <==> s.PullsFor(f) == 0
  {
  }

  /** While some candidate was never pulled, the last such one is picked. */
  lemma UnpulledIsPicked(bonus: (nat, nat) -> real, s: Stats, candidates: seq<RouteFamily>, i: nat)
    requires i < |candidates| && s.PullsFor(candidates[i]) == 0
    requires forall j :: i < j < |candidates| ==> s.PullsFor(candidates[j]) > 0
    ensures Pick(bonus, s, candidates) == Some(candidates[i])
  {
    hide Seen;
    forall j | 0 <= j < |candidates|
      ensures Seen(bonus, s, candidates[j]) == Infinite <==> s.PullsFor(candidates[j]) == 0
    {
      InfiniteExactlyWhenUnpulled(bonus, s, candidates[j]);
    }
    assert LastBest(bonus, s, candidates, i);
    PickIsLastBest(bonus, s, candidates, i);
  }

  lemma SameCountersSamePick(bonus: (nat, nat) -> real, s: Stats, t: Stats, candidates: seq<RouteFamily>)
    requires SameCounters(s, t)
    ensures Pick(bonus, s, candidates) == Pick(bonus, t, candidates)
  {
    if candidates != [] {
      forall f ensures Seen(bonus, s, f) == Seen(bonus, t, f) {
        assert s.Arm(f) == t.Arm(f);
      }
      hide Seen;
      var i := BestIndex(bonus, s, candidates);
      BestIndexIsLastBest(bonus, s, candidates);
      assert LastBest(bonus, t, candidates, i);
      PickIsLastBest(bonus, t, candidates, i);
    }
  }

  /** So a bulk record and its single records lead to the same choices. */
  lemma BulkPicksLikeSingles(bonus: (nat, nat) -> real, s: Stats, f: RouteFamily, outcomes: seq<bool>,
          candidates: seq<RouteFamily>)
    requires s.InRange()
    requires CountOf(outcomes, true) <= U32_MAX && CountOf(outcomes, false) <= U32_MAX
    ensures Pick(bonus, Recorded(s, f, CountOf(outcomes, true), CountOf(outcomes, false)), candidates) ==
            Pick(bonus, RecordedAll(s, f, outcomes), candidates)
  {
    BulkIsSingles(s, f, outcomes);
    var bulk := Recorded(s, f, CountOf(outcomes, true), CountOf(outcomes, false));
    SameCountersSamePick(bonus, bulk, RecordedAll(s, f, outcomes), candidates);
  }

  // ---- Rounds of picking and recording ----

  /** The counters after a round for each outcome. */
  function AfterRounds(bonus: (nat, nat) -> real, candidates: seq<RouteFamily>, outcomes: seq<bool>): Stats
    requires candidates != []
  {
    if outcomes == [] then FRESH
    else
      var before := AfterRounds(bonus, candidates, outcomes[..|outcomes| - 1]);
      RecordedOne(before, Pick(bonus, before, candidates).value, outcomes[|outcomes| - 1])
  }

  /** From a fresh selector the first rounds go through the candidates from the last to the first,
      each pulled once, whatever the outcomes. */
  lemma {:induction false} FirstRounds(bonus: (nat, nat) -> real, candidates: seq<RouteFamily>, outcomes: seq<bool>)
    requires candidates != [] && |outcomes| <= |candidates|
    requires forall i, j :: 0 <= i < j < |candidates| ==> candidates[i] != candidates[j]
    ensures var s, rounds := AfterRounds(bonus, candidates, outcomes), |outcomes|;
            && (forall i :: 0 <= i < |candidates| ==>
                s.PullsFor(candidates[i]) == if i < |candidates| - rounds then 0 else 1)
            && (rounds < |candidates| ==> Pick(bonus, s, candidates) == Some(candidates[|candidates| - 1 - rounds]))
  {
    var s, rounds := AfterRounds(bonus, candidates, outcomes), |outcomes|;
    if outcomes != [] {
      FirstRounds(bonus, candidates, outcomes[..rounds - 1]);
      var before := AfterRounds(bonus, candidates, outcomes[..rounds - 1]);
      var f := candidates[|candidates| - rounds];
      FirstPullCounts(before, f, outcomes[rounds - 1]);
    }
    if rounds < |candidates| {
      UnpulledIsPicked(bonus, s, candidates, |candidates| - 1 - rounds);
    }
  }

  lemma FirstPullCounts(s: Stats, f: RouteFamily, success: bool)
    requires s.PullsFor(f) == 0
    ensures var t := RecordedOne(s, f, success);
            forall g :: t.PullsFor(g) == if g == f then 1 else s.PullsFor(g)
  {
  }

  // ---- The selector ----

  class Ucb1RouteSelector {
    var armStats: map<RouteFamily, ArmStats>
    var totalPulls: nat

    function Snapshot(): Stats
      reads this
    {
      Stats(armStats, totalPulls)
    }

    /** The counters are in range and the total covers the arms. */
    ghost predicate Valid()
      reads this
    {
      Snapshot().InRange() && Snapshot().SummedPulls() <= totalPulls
    }

    constructor ()
      ensures Valid() && Snapshot() == FRESH
    {
      armStats, totalPulls := map[], 0;
    }

    method RecordOutcome(family: RouteFamily, success: bool)
      requires Valid()
      modifies this
      ensures Valid() && Snapshot() == RecordedOne(old(Snapshot()), family, success)
    {
      RecordingKeepsTotal(Snapshot(), family, if success then 1 else 0, if success then 0 else 1);
      var arm := if family in armStats then armStats[family] else EMPTY_ARM;
      if success {
        arm := arm.(successes := SaturatingAdd(arm.successes, 1, U32_MAX));
      } else {
        arm := arm.(failures := SaturatingAdd(arm.failures, 1, U32_MAX));
      }
      armStats := armStats[family := arm];
      totalPulls := SaturatingAdd(totalPulls, 1, U64_MAX);
    }

    method RecordOutcomes(family: RouteFamily, successes: nat, failures: nat)
      requires Valid() && successes <= U32_MAX && failures <= U32_MAX
      modifies this
      ensures Valid() && Snapshot() == Recorded(old(Snapshot()), family, successes, failures)
    {
      RecordingKeepsTotal(Snapshot(), family, successes, failures);
      var arm := if family in armStats then armStats[family] else EMPTY_ARM;
      arm := arm.(successes := SaturatingAdd(arm.successes, successes, U32_MAX));
      arm := arm.(failures := SaturatingAdd(arm.failures, failures, U32_MAX));
      armStats := armStats[family := arm];
      var added := SaturatingAdd(successes, failures, U64_MAX);
      totalPulls := SaturatingAdd(totalPulls, added, U64_MAX);
    }
  }
}
