/**
 * Whole rounds: a run of victim steps, and the count of steps from the first
 * elimination to the winner.
 */
module Elimination {
  import opened Config
  import opened Numeric
  import opened Wrappers
  import opened Seqs
  import opened Items
  import opened Grid
  import opened Sampling
  import opened Rounds

  /** The caller's picks for successive victim steps: the `j`-th picks among `n - j` active items. */
  predicate ValidPicks(picks: seq<nat>, n: nat)
  {
    forall j :: 0 <= j < |picks| ==> picks[j] < n - j
  }

  /**
   * One `eliminate_one` per pick, starting from a running round with more active
   * items than picks: every step is a victim step, the round stays unfinished and
   * `active` shrinks by one per step, always a subset of what it was.
   */
  function Eliminations(r: Round, picks: seq<nat>, screen: Screen): (r': Round)
    requires Inv(r) && r.running && !r.finished
    requires |picks| < |r.active| && ValidPicks(picks, |r.active|)
    ensures Inv(r') && r'.running && !r'.finished
    ensures |r'.active| == |r.active| - |picks|
    ensures Elements(r'.active) <= Elements(r.active)
    ensures |r'.items| == |r.items|
    ensures forall i :: 0 <= i < |r.items| && r.items[i].eliminated ==> r'.items[i].eliminated
    ensures forall i :: 0 <= i < |r.items| ==> r'.items[i].image == r.items[i].image
    decreases |picks|
  {
    if |picks| == 0 then r
    else
      var next := EliminateOne(r, picks[0], screen).value;
      assert ValidPicks(picks[1..], |next.active|);
      Eliminations(next, picks[1..], screen)
  }

  /**
   * A running round with `m >= 1` active items ends after exactly `m - 1` victim
   * steps and one winner step: before each of the first `m - 1` steps at least two
   * items are active, after them exactly one is, the next step crowns it, and then
   * every other item is eliminated.
   */
  lemma Termination(r: Round, picks: seq<nat>, screen: Screen)
    requires Inv(r) && r.running && !r.finished && |r.active| >= 1
    requires |picks| == |r.active| - 1 && ValidPicks(picks, |r.active|)
    ensures forall j :: 0 <= j < |picks| ==>
              ValidPicks(picks[..j], |r.active|) && |Eliminations(r, picks[..j], screen).active| >= 2
    ensures var last := Eliminations(r, picks, screen);
            && |last.active| == 1
            && last.active[0] in Elements(r.active)
            && EliminateOne(last, 0, screen).Success?
            && WinnerStep(last, EliminateOne(last, 0, screen).value, last.active[0], screen)
            && Inv(EliminateOne(last, 0, screen).value)
            && forall i :: 0 <= i < |r.items| ==>
                 (EliminateOne(last, 0, screen).value.items[i].eliminated <==> i != last.active[0])
  {
    forall j | 0 <= j < |picks|
      ensures ValidPicks(picks[..j], |r.active|) && |Eliminations(r, picks[..j], screen).active| >= 2
    {
      assert ValidPicks(picks[..j], |r.active|);
    }
    var last := Eliminations(r, picks, screen);
    assert last.active[0] in Elements(last.active);
    var done := EliminateOne(last, 0, screen).value;
    forall i | 0 <= i < |r.items|
      ensures done.items[i].eliminated <==> i != last.active[0]
    {
      assert last.active == [last.active[0]];
    }
  }

  /**
   * A round fresh from `reset` and started by a click, with `n >= 1` participants,
   * takes exactly `n - 1` eliminations and then crowns one of the chosen images.
   */
  lemma RoundFromReset(pool: seq<Image>, sample: seq<nat>, order: seq<nat>, screen: Screen, picks: seq<nat>)
    requires ValidDraw(pool, sample, order) && |pool| >= 1
    requires var n := Min(GRID_COUNT, |pool|); |picks| == n - 1 && ValidPicks(picks, n)
    ensures var r := Reset(pool, sample, order, screen).(running := true);
            var last := Eliminations(r, picks, screen);
            var done := EliminateOne(last, 0, screen);
            && |r.active| == |r.items| == Min(GRID_COUNT, |pool|)
            && |last.active| == 1
            && done.Success? && done.value.finished && done.value.showOnlyWinner
            && done.value.winner == Some(last.active[0])
            && done.value.items[last.active[0]].image in Elements(pool)
            && done.value.items[last.active[0]].targetScale == FINAL_SCALE
  {
    var r0 := Reset(pool, sample, order, screen);
    var r := r0.(running := true);
    assert Inv(r);
    assert |r.active| == |r.items|;
    Termination(r, picks, screen);
    var last := Eliminations(r, picks, screen);
    var w := last.active[0];
    var done := EliminateOne(last, 0, screen).value;
    assert WinnerStep(last, done, w, screen);
    assert w < |r.items|;
    ShuffleKeepsSample(sample, order, |pool|, |sample|);
    var chosen := Shuffle(sample, order);
    assert r.items[w].image == pool[chosen[w]];
    assert done.items[w].image == r.items[w].image;
  }

  /**
   * With twenty images on file a round uses sixteen of them, and fifteen
   * eliminations leave a single winner centred in the window at four times scale.
   */
  lemma TwentyImageRound(pool: seq<Image>, sample: seq<nat>, order: seq<nat>, screen: Screen, picks: seq<nat>)
    requires |pool| == 20 && ValidDraw(pool, sample, order)
    requires |picks| == 15 && ValidPicks(picks, 16)
    ensures var r := Reset(pool, sample, order, screen).(running := true);
            var last := Eliminations(r, picks, screen);
            var done := EliminateOne(last, 0, screen);
            && |r.items| == 16
            && |last.active| == 1
            && done.Success? && done.value.finished
            && var w := last.active[0];
               && done.value.items[w].targetScale == FINAL_SCALE
               && done.value.items[w].tx == screen.width as real / 2.0
               && done.value.items[w].ty == screen.height as real / 2.0
  {
    RoundFromReset(pool, sample, order, screen, picks);
  }

  /**
   * With no images on file the program crashes: start-up gives an empty round,
   * a click starts it, and the first elimination reaches `active[0]` on an empty list.
   */
  lemma EmptyPoolCrashes(screen: Screen)
    ensures var s := Click(Initial([], [], []), [], [], [], screen);
            s.round.running && Tick(s, ELIMINATION_DELAY, 0, screen) == Failure(IndexError)
  {
    var s0 := Initial([], [], []);
    assert s0.round.items == [] && s0.round.active == [];
  }
}
