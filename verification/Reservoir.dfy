/** The latency reservoir: Algorithm R, and the proof that it samples uniformly. */
module Reservoir {

  const LATENCY_SAMPLE_CAP: nat := 8192

  /** The recorded positions the slots hold after position `k` arrives with this draw. */
  function StepSlots(cap: nat, slots: seq<nat>, k: nat, draw: nat): seq<nat> {
    if |slots| < cap then slots + [k]
    else if draw < |slots| then slots[draw := k]
    else slots
  }

  /** `k` positions were recorded: the slots hold that many of them, at most `cap`, all different. */
  ghost predicate GoodSlots(cap: nat, slots: seq<nat>, k: nat) {
    && |slots| == (if k < cap then k else cap)
    && (forall i :: 0 <= i < |slots| ==> slots[i] < k)
    && (forall i, j :: 0 <= i < j < |slots| ==> slots[i] != slots[j])
  }

  lemma StepKeepsGood(cap: nat, slots: seq<nat>, k: nat, draw: nat)
    requires GoodSlots(cap, slots, k)
    ensures GoodSlots(cap, StepSlots(cap, slots, k, draw), k + 1)
  {
  }

  /** Once the reservoir is full, a draw below `cap` puts the arriving position in that slot
      and drops the one that was there; a larger draw changes nothing. */
  lemma FullStep(cap: nat, slots: seq<nat>, k: nat, draw: nat)
    requires cap <= k && GoodSlots(cap, slots, k)
    ensures |slots| == cap
    ensures GoodSlots(cap, StepSlots(cap, slots, k, draw), k + 1)
    ensures k in StepSlots(cap, slots, k, draw) <==> draw < cap
    ensures forall p :: 0 <= p < cap ==> slots[p] < k && (slots[p] in StepSlots(cap, slots, k, draw) <==> p != draw)
  {
    var next := StepSlots(cap, slots, k, draw);
    if draw < cap {
      assert next[draw] == k;
    }
    forall p | 0 <= p < cap ensures slots[p] in next <==> p != draw {
      if p != draw {
        assert next[p] == slots[p];
      }
    }
  }

  class LatencyReservoir {
    var seen: nat
    var values: seq<nat>
    ghost var recorded: seq<nat>  // every value ever recorded
    ghost var slots: seq<nat>     // the position of each kept value in `recorded`

    ghost predicate Valid()
      reads this
    {
      && seen == |recorded|
      && GoodSlots(LATENCY_SAMPLE_CAP, slots, seen)
      && |values| == |slots|
      && forall i :: 0 <= i < |slots| ==> values[i] == recorded[slots[i]]
    }

    constructor ()
      ensures Valid() && recorded == [] && slots == []
    {
      seen, values, recorded, slots := 0, [], [], [];
    }

    /** `draw` is what the generator returns for the range from 0 up to `seen`,
        exclusive, after counting this value; it is only asked for once the reservoir is full. */
    method Record(value: nat, draw: nat)
      requires Valid()
      requires |values| >= LATENCY_SAMPLE_CAP ==> draw < seen + 1
      modifies this
      ensures Valid()
      ensures recorded == old(recorded) + [value]
      ensures slots == StepSlots(LATENCY_SAMPLE_CAP, old(slots), old(seen), draw)
    {
      StepKeepsGood(LATENCY_SAMPLE_CAP, slots, seen, draw);
      ghost var position := seen;
      seen := seen + 1;
      recorded := recorded + [value];
      slots := StepSlots(LATENCY_SAMPLE_CAP, slots, position, draw);
      if |values| < LATENCY_SAMPLE_CAP {
        values := values + [value];
        return;
      }
      var replaceIndex := draw;
      if replaceIndex < LATENCY_SAMPLE_CAP {
        values := values[replaceIndex := value];
      }
    }
  }

  // ---- Uniformity, by counting draw sequences ----

  /** The slots after the positions from `k` on arrive with these draws. */
  function RunSlots(cap: nat, slots: seq<nat>, k: nat, draws: seq<nat>): seq<nat>
    decreases |draws|
  {
    if draws == [] then slots else RunSlots(cap, StepSlots(cap, slots, k, draws[0]), k + 1, draws[1..])
  }

  /** Every list of draws for the positions from `k` up to `n`: position `i` draws from 0 to `i`. */
  function DrawSequences(k: nat, n: nat): seq<seq<nat>>
    requires k <= n
    decreases n - k, k + 2
  {
    if k == n then [[]] else FirstBelow(k, n, k + 1)
  }

  /** Those whose first draw is below `m`. */
  function FirstBelow(k: nat, n: nat, m: nat): seq<seq<nat>>
    requires k < n && m <= k + 1
    decreases n - k, m
  {
    if m == 0 then [] else FirstBelow(k, n, m - 1) + Prepended(m - 1, DrawSequences(k + 1, n))
  }

  function Prepended(draw: nat, lists: seq<seq<nat>>): (all: seq<seq<nat>>)
    ensures |all| == |lists|
    ensures forall i :: 0 <= i < |all| ==> all[i] == [draw] + lists[i]
  {
    if lists == [] then [] else Prepended(draw, lists[..|lists| - 1]) + [[draw] + lists[|lists| - 1]]
  }

  predicate ValidDraws(k: nat, n: nat, draws: seq<nat>) {
    k + |draws| == n && forall i :: 0 <= i < |draws| ==> draws[i] <= k + i
  }

  ghost predicate NoDuplicates(lists: seq<seq<nat>>) {
    forall i, j :: 0 <= i < j < |lists| ==> lists[i] != lists[j]
  }

  /** The enumeration has exactly the possible draw sequences, each once. */
  lemma {:induction false} DrawSequencesComplete(k: nat, n: nat)
    requires k <= n
    ensures forall draws :: draws in DrawSequences(k, n) <==> ValidDraws(k, n, draws)
    ensures NoDuplicates(DrawSequences(k, n))
    decreases n - k, k + 2
  {
    if k < n {
      FirstBelowComplete(k, n, k + 1);
    } else {
      forall draws ensures draws in DrawSequences(k, n) <==> ValidDraws(k, n, draws) {
        assert ValidDraws(k, n, draws) <==> draws == [];
      }
    }
  }

  lemma {:induction false} FirstBelowComplete(k: nat, n: nat, m: nat)
    requires k < n && m <= k + 1
    ensures forall draws :: draws in FirstBelow(k, n, m) <==> ValidDraws(k, n, draws) && draws[0] < m
    ensures NoDuplicates(FirstBelow(k, n, m))
    decreases n - k, m
  {
    if m > 0 {
      FirstBelowComplete(k, n, m - 1);
      DrawSequencesComplete(k + 1, n);
      var tails := DrawSequences(k + 1, n);
      var before, here := FirstBelow(k, n, m - 1), Prepended(m - 1, tails);
      forall draws ensures draws in here <==> ValidDraws(k, n, draws) && draws[0] == m - 1 {
        HeadAndTail(k, n, draws);
        if draws in here {
          var i :| 0 <= i < |here| && here[i] == draws;
          assert draws[1..] == tails[i] && tails[i] in tails;
        }
        if ValidDraws(k, n, draws) && draws[0] == m - 1 {
          var i :| 0 <= i < |tails| && tails[i] == draws[1..];
          assert draws == [m - 1] + tails[i] == here[i];
        }
      }
      forall i, j | 0 <= i < j < |here| ensures here[i] != here[j] {
        assert here[i][1..] == tails[i] && here[j][1..] == tails[j];
      }
      forall i, j | 0 <= i < |before| && 0 <= j < |here| ensures before[i] != here[j] {
        assert before[i] in before && here[j] in here;
      }
    }
  }

  lemma HeadAndTail(k: nat, n: nat, draws: seq<nat>)
    requires k < n
    ensures ValidDraws(k, n, draws) <==> draws != [] && draws[0] <= k && ValidDraws(k + 1, n, draws[1..])
  {
    if draws != [] && draws[0] <= k && ValidDraws(k + 1, n, draws[1..]) {
      forall i | 0 <= i < |draws| ensures draws[i] <= k + i {
        if i > 0 {
          assert draws[i] == draws[1..][i - 1];
        }
      }
    }
  }

  /** How many of the draw sequences leave position `j` in the reservoir. */
  function Survivals(cap: nat, slots: seq<nat>, k: nat, j: nat, lists: seq<seq<nat>>): nat {
    if lists == [] then 0
    else Survivals(cap, slots, k, j, lists[..|lists| - 1]) + if j in RunSlots(cap, slots, k, lists[|lists| - 1])
        then 1 else 0
  }

  lemma {:induction false} SurvivalsAppend(cap: nat, slots: seq<nat>, k: nat, j: nat, a: seq<seq<nat>>,
          b: seq<seq<nat>>)
    ensures Survivals(cap, slots, k, j, a + b) == Survivals(cap, slots, k, j, a) + Survivals(cap, slots, k, j, b)
  {
    hide RunSlots;
    if b == [] {
      assert a + b == a;
    } else {
      SurvivalsAppend(cap, slots, k, j, a, b[..|b| - 1]);
      assert (a + b)[..|a + b| - 1] == a + b[..|b| - 1];
    }
  }

  lemma {:induction false} SurvivalsPrepended(cap: nat, slots: seq<nat>, k: nat, j: nat, draw: nat,
          lists: seq<seq<nat>>)
    ensures Survivals(cap, slots, k, j, Prepended(draw, lists)) ==
            Survivals(cap, StepSlots(cap, slots, k, draw), k + 1, j, lists)
  {
    if lists != [] {
      var all := Prepended(draw, lists);
      SurvivalsPrepended(cap, slots, k, j, draw, lists[..|lists| - 1]);
      assert all[..|all| - 1] == Prepended(draw, lists[..|lists| - 1]);
      var last := all[|all| - 1];
      assert last[0] == draw && last[1..] == lists[|lists| - 1];
    }
  }

  lemma {:induction false} FirstBelowCount(k: nat, n: nat, m: nat)
    requires k < n && m <= k + 1
    ensures |FirstBelow(k, n, m)| == m * |DrawSequences(k + 1, n)|
  {
    hide DrawSequences, Prepended;
    if m > 0 {
      FirstBelowCount(k, n, m - 1);
    }
  }

  lemma OnlyTheEmptyDraw(cap: nat, slots: seq<nat>, k: nat, j: nat)
    ensures Survivals(cap, slots, k, j, DrawSequences(k, k)) == if j in slots then 1 else 0
  {
    var all := DrawSequences(k, k);
    assert all == [[]] && all[..0] == [];
    assert RunSlots(cap, slots, k, all[0]) == slots;
  }

  /** A position already dropped, or not yet arrived and never drawn, does not come back. */
  lemma {:induction false} DroppedStaysOut(cap: nat, slots: seq<nat>, k: nat, n: nat, j: nat)
    requires 0 < cap <= k <= n && GoodSlots(cap, slots, k) && j < k && j !in slots
    ensures Survivals(cap, slots, k, j, DrawSequences(k, n)) == 0
    decreases n - k, k + 2
  {
    if k < n {
      DroppedStaysOutBelow(cap, slots, k, n, j, k + 1);
    } else {
      OnlyTheEmptyDraw(cap, slots, k, j);
    }
  }

  /** The lists whose first draw is below `m`: those below `m - 1`, and those that draw `m - 1`. */
  lemma OneMoreDraw(cap: nat, slots: seq<nat>, k: nat, n: nat, j: nat, m: nat)
    requires k < n && 0 < m <= k + 1
    ensures Survivals(cap, slots, k, j, FirstBelow(k, n, m)) ==
            Survivals(cap, slots, k, j, FirstBelow(k, n, m - 1)) +
            Survivals(cap, StepSlots(cap, slots, k, m - 1), k + 1, j, DrawSequences(k + 1, n))
  {
    hide RunSlots, Survivals, DrawSequences, StepSlots, Prepended;
    SurvivalsAppend(cap, slots, k, j, FirstBelow(k, n, m - 1), Prepended(m - 1, DrawSequences(k + 1, n)));
    SurvivalsPrepended(cap, slots, k, j, m - 1, DrawSequences(k + 1, n));
  }

  lemma NoSurvivals(cap: nat, slots: seq<nat>, k: nat, n: nat, j: nat)
    requires k < n
    ensures Survivals(cap, slots, k, j, FirstBelow(k, n, 0)) == 0
  {
  }

  lemma DroppedIsNotPutBack(cap: nat, slots: seq<nat>, k: nat, draw: nat, j: nat)
    requires GoodSlots(cap, slots, k) && j < k && j !in slots
    ensures GoodSlots(cap, StepSlots(cap, slots, k, draw), k + 1) && j !in StepSlots(cap, slots, k, draw)
  {
  }

  lemma {:induction false} DroppedStaysOutBelow(cap: nat, slots: seq<nat>, k: nat, n: nat, j: nat, m: nat)
    requires 0 < cap <= k < n && GoodSlots(cap, slots, k) && j < k && j !in slots && m <= k + 1
    ensures Survivals(cap, slots, k, j, FirstBelow(k, n, m)) == 0
    decreases n - k, m
  {
    hide RunSlots, DrawSequences, Prepended, Survivals, FirstBelow, StepSlots, GoodSlots;
    if m == 0 {
      NoSurvivals(cap, slots, k, n, j);
    } else {
      DroppedStaysOutBelow(cap, slots, k, n, j, m - 1);
      DroppedIsNotPutBack(cap, slots, k, m - 1, j);
      DroppedStaysOut(cap, StepSlots(cap, slots, k, m - 1), k + 1, n, j);
      OneMoreDraw(cap, slots, k, n, j, m);
    }
  }

  /** `count` out of `all` is the fraction `part` out of `n`. */
  predicate Fraction(count: nat, all: nat, part: nat, n: nat) {
    count * n == part * all
  }

  /** The same while counting: `hits` groups, each giving a fraction `width` out of `n` of `total`. */
  predicate Share(count: nat, n: nat, hits: nat, width: nat, total: nat) {
    count * n == hits * width * total
  }

  lemma NoShare(cap: nat, slots: seq<nat>, k: nat, n: nat, j: nat, width: nat, total: nat)
    requires k < n
    ensures Share(Survivals(cap, slots, k, j, FirstBelow(k, n, 0)), n, 0, width, total)
  {
    NoSurvivals(cap, slots, k, n, j);
  }

  lemma AddShare(before: nat, here: nat, n: nat, hits: nat, width: nat, total: nat)
    requires Share(before, n, hits, width, total) && Fraction(here, total, width, n)
    ensures Share(before + here, n, hits + 1, width, total)
  {
    assert (before + here) * n == before * n + here * n;
    assert (hits + 1) * width * total == hits * width * total + width * total;
  }

  lemma WholeShare(count: nat, n: nat, a: nat, b: nat, total: nat, all: nat)
    requires Share(count, n, a, b, total) || Share(count, n, b, a, total)
    requires all == b * total
    ensures Fraction(count, all, a, n)
  {
    assert a * b * total == a * (b * total);
    assert a * b == b * a;
  }

  /** A kept position survives to `n` in a share of `k` out of `n`. */
  lemma {:induction false} KeptShare(cap: nat, slots: seq<nat>, k: nat, n: nat, j: nat)
    requires 0 < cap <= k <= n && GoodSlots(cap, slots, k) && j in slots
    ensures Fraction(Survivals(cap, slots, k, j, DrawSequences(k, n)), |DrawSequences(k, n)|, k, n)
    decreases n - k, k + 2
  {
    hide RunSlots, Survivals, FirstBelow, Prepended;
    if k < n {
      var p :| 0 <= p < |slots| && slots[p] == j;
      var total := |DrawSequences(k + 1, n)|;
      KeptShareBelow(cap, slots, k, n, p, k + 1);
      FirstBelowCount(k, n, k + 1);
      WholeShare(Survivals(cap, slots, k, j, FirstBelow(k, n, k + 1)), n, k, k + 1, total, |DrawSequences(k, n)|);
    } else {
      OnlyTheEmptyDraw(cap, slots, k, j);
    }
  }

  /** Of the first `m` draws every one but the draw of the position's own slot keeps it. */
  lemma {:induction false} KeptShareBelow(cap: nat, slots: seq<nat>, k: nat, n: nat, p: nat, m: nat)
    requires 0 < cap <= k < n && GoodSlots(cap, slots, k) && p < |slots| && m <= k + 1
    ensures var hits := if p < m then m - 1 else m;
            Share(Survivals(cap, slots, k, slots[p], FirstBelow(k, n, m)), n, hits, k + 1, |DrawSequences(k + 1, n)|)
    decreases n - k, m
  {
    hide RunSlots, DrawSequences, Prepended, Survivals, FirstBelow, StepSlots, GoodSlots, Share, Fraction;
    if m == 0 {
      NoShare(cap, slots, k, n, slots[p], k + 1, |DrawSequences(k + 1, n)|);
    } else {
      var tails, next := DrawSequences(k + 1, n), StepSlots(cap, slots, k, m - 1);
      var j := slots[p];
      FullStep(cap, slots, k, m - 1);
      KeptShareBelow(cap, slots, k, n, p, m - 1);
      OneMoreDraw(cap, slots, k, n, j, m);
      if m - 1 == p {
        DroppedStaysOut(cap, next, k + 1, n, j);
      } else {
        KeptShare(cap, next, k + 1, n, j);
        AddShare(Survivals(cap, slots, k, j, FirstBelow(k, n, m - 1)), Survivals(cap, next, k + 1, j, tails), n,
                 if p < m - 1 then m - 2 else m - 1, k + 1, |tails|);
      }
    }
  }

  /** The slots when the reservoir has just filled up: positions 0 to cap - 1. */
  function Filled(cap: nat): (slots: seq<nat>)
    ensures GoodSlots(cap, slots, cap)
  {
    seq(cap, i => i)
  }

  lemma {:induction false} FillsInOrder(cap: nat, k: nat, draws: seq<nat>)
    requires k + |draws| == cap
    ensures RunSlots(cap, seq(k, i => i), k, draws) == Filled(cap)
    decreases |draws|
  {
    var slots := seq(k, i => i);
    if draws != [] {
      assert slots + [k] == seq(k + 1, i => i);
      FillsInOrder(cap, k + 1, draws[1..]);
    } else {
      assert slots == Filled(cap);
    }
  }

  /** An arriving position enters in a share of cap out of k + 1, and then survives
      like any kept one: altogether cap out of n. */
  lemma {:induction false} ArrivalShare(cap: nat, slots: seq<nat>, k: nat, n: nat, j: nat)
    requires 0 < cap <= k <= n && GoodSlots(cap, slots, k) && k <= j < n
    ensures Fraction(Survivals(cap, slots, k, j, DrawSequences(k, n)), |DrawSequences(k, n)|, cap, n)
    decreases n - k, k + 2
  {
    hide RunSlots, Survivals, FirstBelow, Prepended;
    FirstBelowCount(k, n, k + 1);
    var total := |DrawSequences(k + 1, n)|;
    if j > k {
      LaterArrivalShareBelow(cap, slots, k, n, j, k + 1);
    } else {
      EntryShareBelow(cap, slots, k, n, k + 1);
    }
    WholeShare(Survivals(cap, slots, k, j, FirstBelow(k, n, k + 1)), n, cap, k + 1, total, |DrawSequences(k, n)|);
  }

  /** A position that arrives later has its share whatever is drawn now. */
  lemma {:induction false} LaterArrivalShareBelow(cap: nat, slots: seq<nat>, k: nat, n: nat, j: nat, m: nat)
    requires 0 < cap <= k < n && GoodSlots(cap, slots, k) && k < j < n && m <= k + 1
    ensures Share(Survivals(cap, slots, k, j, FirstBelow(k, n, m)), n, m, cap, |DrawSequences(k + 1, n)|)
    decreases n - k, m
  {
    hide RunSlots, DrawSequences, Prepended, Survivals, FirstBelow, StepSlots, GoodSlots, Share, Fraction;
    if m == 0 {
      NoShare(cap, slots, k, n, j, cap, |DrawSequences(k + 1, n)|);
    } else {
      var tails, next := DrawSequences(k + 1, n), StepSlots(cap, slots, k, m - 1);
      LaterArrivalShareBelow(cap, slots, k, n, j, m - 1);
      StepKeepsGood(cap, slots, k, m - 1);
      OneMoreDraw(cap, slots, k, n, j, m);
      ArrivalShare(cap, next, k + 1, n, j);
      AddShare(Survivals(cap, slots, k, j, FirstBelow(k, n, m - 1)), Survivals(cap, next, k + 1, j, tails), n,
               m - 1, cap, |tails|);
    }
  }

  /** The position arriving now enters exactly when the draw names a slot. */
  lemma {:induction false} EntryShareBelow(cap: nat, slots: seq<nat>, k: nat, n: nat, m: nat)
    requires 0 < cap <= k < n && GoodSlots(cap, slots, k) && m <= k + 1
    ensures var hits := if m < cap then m else cap;
            Share(Survivals(cap, slots, k, k, FirstBelow(k, n, m)), n, hits, k + 1, |DrawSequences(k + 1, n)|)
    decreases n - k, m
  {
    hide RunSlots, DrawSequences, Prepended, Survivals, FirstBelow, StepSlots, GoodSlots, Share, Fraction;
    if m == 0 {
      NoShare(cap, slots, k, n, k, k + 1, |DrawSequences(k + 1, n)|);
    } else {
      var tails, next := DrawSequences(k + 1, n), StepSlots(cap, slots, k, m - 1);
      FullStep(cap, slots, k, m - 1);
      EntryShareBelow(cap, slots, k, n, m - 1);
      OneMoreDraw(cap, slots, k, n, k, m);
      if m - 1 < cap {
        KeptShare(cap, next, k + 1, n, k);
        AddShare(Survivals(cap, slots, k, k, FirstBelow(k, n, m - 1)), Survivals(cap, next, k + 1, k, tails), n,
                 m - 1, k + 1, |tails|);
      } else {
        DroppedStaysOut(cap, next, k + 1, n, k);
      }
    }
  }

  /** Algorithm R is exactly uniform: over all draw sequences of `n` recordings,
      every recorded position is kept in cap out of n of them. */
  lemma ReservoirIsUniform(cap: nat, n: nat, j: nat)
    requires 0 < cap <= n && j < n
    ensures Survivals(cap, Filled(cap), cap, j, DrawSequences(cap, n)) * n == cap * |DrawSequences(cap, n)|
  {
    if j < cap {
      assert Filled(cap)[j] == j;
      KeptShare(cap, Filled(cap), cap, n, j);
    } else {
      ArrivalShare(cap, Filled(cap), cap, n, j);
    }
  }
}
