/**
 * The round state machine: `reset`, `eliminate_one`, the left-click and timer
 * transitions of the main loop, relayout on resize, and the per-frame update pass.
 */
module Rounds {
  import opened Config
  import opened Numeric
  import opened Wrappers
  import opened Seqs
  import opened Items
  import opened Grid
  import opened Sampling
  import opened Contain

  /**
   * The round's globals. `active` holds positions in `items` (the program keeps
   * references to the same item objects), and `winner` is such a position.
   */
  datatype Round = Round(
    items: seq<Item>,
    active: seq<nat>,
    running: bool,
    finished: bool,
    showOnlyWinner: bool,
    winner: Option<nat>)

  /** The round together with the main loop's elimination timer, in milliseconds. */
  datatype Session = Session(round: Round, timer: int)

  /**
   * `active` encodes a list of distinct item references: positions in `items`,
   * none repeated.
   */
  predicate WellFormed(r: Round)
  {
    && Distinct(r.active)
    && forall k :: 0 <= k < |r.active| ==> r.active[k] < |r.items|
  }

  /**
   * What holds of every round the program can reach: `active` is a set of items,
   * an item is eliminated exactly when it has left `active`, opacities stay in
   * range, someone is active while there are items, and a finished round has
   * exactly one active item, which is the winner.
   */
  predicate Inv(r: Round)
  {
    && |r.items| <= GRID_COUNT
    && WellFormed(r)
    && (forall i :: 0 <= i < |r.items| ==> (r.items[i].eliminated <==> i !in r.active))
    && (forall i :: 0 <= i < |r.items| ==> AlphaInv(r.items[i]))
    && (|r.items| > 0 ==> |r.active| > 0)
    && (r.finished ==> r.running && r.showOnlyWinner && |r.active| == 1 && r.winner == Some(r.active[0]))
    && (!r.finished ==> !r.showOnlyWinner && r.winner.None?)
  }

  /** The timer stays below the delay, and is clear once the round has finished. */
  predicate SessionInv(s: Session)
  {
    && Inv(s.round)
    && 0 <= s.timer < ELIMINATION_DELAY
    && (s.round.finished ==> s.timer == 0)
  }

  /** The caller's random draws for `reset` are a genuine sample and shuffle of the pool. */
  predicate ValidDraw(pool: seq<Image>, sample: seq<nat>, order: seq<nat>)
  {
    && IsSample(sample, |pool|, Min(GRID_COUNT, |pool|))
    && |order| == |sample|
    && IsPermutation(order)
  }

  /** The caller's pick for `random.choice(active)` is a position in `active` whenever one is needed. */
  predicate ValidPick(r: Round, pick: nat)
  {
    |r.active| >= 2 ==> pick < |r.active|
  }

  /**
   * `reset`: draw `min(16, |pool|)` distinct images, shuffle them, make a fresh item
   * for each, make all of them active, clear the flags, and lay the grid out.
   */
  function Reset(pool: seq<Image>, sample: seq<nat>, order: seq<nat>, screen: Screen): (r: Round)
    requires ValidDraw(pool, sample, order)
    ensures Inv(r)
    ensures |r.items| == Min(GRID_COUNT, |pool|)
    ensures forall j :: 0 <= j < |r.items| ==>
              && r.items[j].image == pool[Shuffle(sample, order)[j]]
              && Pristine(r.items[j])
              && r.items[j] == Place(r.items[j], Layout(screen), j)
    ensures r.active == Indices(|r.items|)
    ensures !r.running && !r.finished && !r.showOnlyWinner && r.winner == None
  {
    ShuffleKeepsSample(sample, order, |pool|, |sample|);
    var chosen := Shuffle(sample, order);
    var items := LayoutItems(NewItems(pool, chosen), screen);
    LaidOutFresh(NewItems(pool, chosen), screen);
    StartInv(items);
    Round(items, Indices(|items|), false, false, false, None)
  }

  /** One fresh item per chosen pool position, in the chosen order. */
  function NewItems(pool: seq<Image>, chosen: seq<nat>): (made: seq<Item>)
    requires forall j :: 0 <= j < |chosen| ==> chosen[j] < |pool|
    ensures |made| == |chosen|
    ensures forall j :: 0 <= j < |made| ==> made[j].image == pool[chosen[j]] && Pristine(made[j])
  {
    seq(|chosen|, j requires 0 <= j < |chosen| => NewItem(pool[chosen[j]]))
  }

  /** Laying out fresh items keeps them fresh, and a laid-out item is where layout puts it. */
  lemma LaidOutFresh(made: seq<Item>, screen: Screen)
    requires forall j :: 0 <= j < |made| ==> Pristine(made[j])
    ensures forall j :: 0 <= j < |made| ==>
              && LayoutItems(made, screen)[j].image == made[j].image
              && Pristine(LayoutItems(made, screen)[j])
              && LayoutItems(made, screen)[j] == Place(LayoutItems(made, screen)[j], Layout(screen), j)
  {
    var g := Layout(screen);
    forall j | 0 <= j < |made|
      ensures LayoutItems(made, screen)[j] == Place(LayoutItems(made, screen)[j], g, j)
    {
      var p := Place(made[j], g, j);
      assert Place(p, g, j) == p;
    }
  }

  /** A round whose items are all fresh and all active satisfies the invariant. */
  lemma StartInv(items: seq<Item>)
    requires |items| <= GRID_COUNT
    requires forall j :: 0 <= j < |items| ==> Pristine(items[j])
    ensures Inv(Round(items, Indices(|items|), false, false, false, None))
  {
    var active := Indices(|items|);
    forall i | 0 <= i < |items|
      ensures i in active
    {
      assert active[i] == i;
    }
  }

  /** The step removed `v` from `active`, marked it eliminated, and changed nothing else. */
  predicate VictimStep(r: Round, r': Round, v: nat)
  {
    && v in r.active && v < |r.items|
    && |r'.active| == |r.active| - 1
    && Elements(r'.active) == Elements(r.active) - {v}
    && r'.items == r.items[v := r.items[v].(eliminated := true)]
    && r'.running == r.running && r'.finished == r.finished
    && r'.showOnlyWinner == r.showOnlyWinner && r'.winner == r.winner
  }

  /**
   * The step crowned `w`, the only active item: the round is finished and shows only
   * the winner, which is opaque, in play, heading for the window centre at 4x scale.
   */
  predicate WinnerStep(r: Round, r': Round, w: nat, screen: Screen)
  {
    && r.active == [w] && w < |r.items|
    && r'.finished && r'.showOnlyWinner && r'.winner == Some(w)
    && r'.active == r.active && r'.running == r.running
    && |r'.items| == |r.items|
    && (forall i :: 0 <= i < |r.items| && i != w ==> r'.items[i] == r.items[i])
    && r'.items[w] == r.items[w].(eliminated := false, alpha := OPAQUE,
                                  tx := screen.width as real / 2.0,
                                  ty := screen.height as real / 2.0,
                                  targetScale := FINAL_SCALE)
  }

  /**
   * `eliminate_one`: with at most one item active, crown it (an empty `active`
   * raises `IndexError`); otherwise eliminate the picked active item.
   */
  function EliminateOne(r: Round, pick: nat, screen: Screen): (res: Result<Round>)
    requires WellFormed(r) && ValidPick(r, pick)
    ensures res.Failure? <==> |r.active| == 0
    ensures res.Failure? ==> res.error == IndexError
    ensures |r.active| == 1 ==> WinnerStep(r, res.value, r.active[0], screen)
    ensures |r.active| >= 2 ==> VictimStep(r, res.value, r.active[pick])
    ensures Inv(r) && |r.active| >= 2 ==> !r.items[r.active[pick]].eliminated
    ensures Inv(r) && r.running && res.Success? ==> Inv(res.value)
  {
    if |r.active| <= 1 then
      if |r.active| == 0 then Failure(IndexError)
      else
        var w := r.active[0];
        var crowned := r.items[w].(eliminated := false, alpha := OPAQUE,
                                   tx := screen.width as real / 2.0,
                                   ty := screen.height as real / 2.0,
                                   targetScale := FINAL_SCALE);
        assert r.active == [w];
        Success(r.(finished := true, showOnlyWinner := true, winner := Some(w),
                   items := r.items[w := crowned]))
    else
      var victim := r.active[pick];
      RemoveFirstAt(r.active, pick);
      DropAt(r.active, pick);
      Success(r.(active := RemoveFirst(r.active, victim),
                 items := r.items[victim := r.items[victim].(eliminated := true)]))
  }

  /**
   * The timer part of a frame: while the round runs and is not finished, add the
   * frame's `dt`; on reaching the delay, clear the timer and run one `eliminate_one`.
   */
  function Tick(s: Session, dt: nat, pick: nat, screen: Screen): (res: Result<Session>)
    requires WellFormed(s.round) && ValidPick(s.round, pick)
    ensures !(s.round.running && !s.round.finished) ==> res == Success(s)
    ensures s.round.running && !s.round.finished && s.timer + dt < ELIMINATION_DELAY ==>
              res == Success(s.(timer := s.timer + dt))
    ensures s.round.running && !s.round.finished && s.timer + dt >= ELIMINATION_DELAY ==>
              match EliminateOne(s.round, pick, screen)
              case Success(r') => res == Success(Session(r', 0))
              case Failure(e) => res == Failure(e)
    ensures SessionInv(s) && res.Success? ==> SessionInv(res.value)
    ensures SessionInv(s) ==> (res.Failure? <==> s.round.running && s.round.items == [] && s.timer + dt >= ELIMINATION_DELAY)
  {
    if s.round.running && !s.round.finished then
      var t := s.timer + dt;
      if t >= ELIMINATION_DELAY then
        match EliminateOne(s.round, pick, screen)
        case Success(r') => Success(Session(r', 0))
        case Failure(e) => Failure(e)
      else
        Success(s.(timer := t))
    else
      Success(s)
  }

  /**
   * A left click: a finished round is replaced by a fresh one (the timer is left as
   * it is); an idle round starts running; a running round ignores the click.
   */
  function Click(s: Session, pool: seq<Image>, sample: seq<nat>, order: seq<nat>, screen: Screen): (t: Session)
    requires ValidDraw(pool, sample, order)
    ensures s.round.finished ==> t == Session(Reset(pool, sample, order, screen), s.timer)
    ensures !s.round.finished && !s.round.running ==> t == s.(round := s.round.(running := true))
    ensures !s.round.finished && s.round.running ==> t == s
    ensures SessionInv(s) ==> SessionInv(t)
    ensures SessionInv(s) && s.round.finished ==> t.timer == 0 && !t.round.running
  {
    if s.round.finished then
      s.(round := Reset(pool, sample, order, screen))
    else if !s.round.running then
      s.(round := s.round.(running := true))
    else
      s
  }

  /** A window resize: relayout the grid unless only the winner is on show. */
  function Resize(r: Round, screen: Screen): (r': Round)
    ensures r.showOnlyWinner ==> r' == r
    ensures !r.showOnlyWinner ==> r'.items == LayoutItems(r.items, screen)
    ensures r'.active == r.active && r'.running == r.running && r'.finished == r.finished
    ensures r'.showOnlyWinner == r.showOnlyWinner && r'.winner == r.winner
    ensures Inv(r) ==> Inv(r')
  {
    if r.showOnlyWinner then r else r.(items := LayoutItems(r.items, screen))
  }

  /**
   * The update pass of a frame: only the winner once it is on show, otherwise every
   * item. The draw pass that follows is `Render`.
   */
  function Animate(r: Round): (r': Round)
    requires r.showOnlyWinner && r.winner.Some? ==> r.winner.value < |r.items|
    ensures r'.active == r.active && r'.running == r.running && r'.finished == r.finished
    ensures r'.showOnlyWinner == r.showOnlyWinner && r'.winner == r.winner
    ensures |r'.items| == |r.items|
    ensures forall i :: 0 <= i < |r.items| ==>
              && r'.items[i].eliminated == r.items[i].eliminated
              && r'.items[i].alpha <= r.items[i].alpha
              && (r'.items[i] == r.items[i] || r'.items[i] == Update(r.items[i]))
    ensures r.showOnlyWinner && r.winner.Some? ==>
              r'.items[r.winner.value] == Update(r.items[r.winner.value])
    ensures r.showOnlyWinner && r.winner.Some? ==>
              forall i :: 0 <= i < |r.items| && i != r.winner.value ==> r'.items[i] == r.items[i]
    ensures !(r.showOnlyWinner && r.winner.Some?) ==>
              forall i :: 0 <= i < |r.items| ==> r'.items[i] == Update(r.items[i])
    ensures Inv(r) ==> Inv(r')
  {
    if r.showOnlyWinner && r.winner.Some? then
      var w := r.winner.value;
      r.(items := r.items[w := Update(r.items[w])])
    else
      r.(items := seq(|r.items|, i requires 0 <= i < |r.items| => Update(r.items[i])))
  }

  /** The draw pass visits the item at `i`: only the winner once it is on show, otherwise every item. */
  predicate IsDrawn(r: Round, i: nat)
  {
    !(r.showOnlyWinner && r.winner.Some?) || i == r.winner.value
  }

  /** The positions the draw pass visits, in drawing order. */
  function Drawn(r: Round): (d: seq<nat>)
    requires r.showOnlyWinner && r.winner.Some? ==> r.winner.value < |r.items|
    ensures forall k :: 0 <= k < |d| ==> d[k] < |r.items| && IsDrawn(r, d[k])
    ensures forall i :: 0 <= i < |r.items| && IsDrawn(r, i) ==> i in d
  {
    if r.showOnlyWinner && r.winner.Some? then [r.winner.value]
    else
      var d := Indices(|r.items|);
      assert forall i :: 0 <= i < |r.items| ==> i in d by {
        forall i | 0 <= i < |r.items|
          ensures i in d
        {
          assert d[i] == i;
        }
      }
      d
  }

  /**
   * `scale_contain(item.pil, item.w, item.h)` for each drawn item in turn, as
   * `Item.draw` computes it before scaling: the first zero box height raises
   * ZeroDivisionError, and otherwise every drawn item gets its contained size.
   */
  function ContainAll(items: seq<Item>, drawn: seq<nat>): (res: Result<seq<(int, int)>>)
    requires forall k :: 0 <= k < |drawn| ==> drawn[k] < |items|
    ensures res.Failure? <==> exists k :: 0 <= k < |drawn| && items[drawn[k]].h == 0
    ensures res.Failure? ==> res.error == ZeroDivisionError
    ensures res.Success? ==> |res.value| == |drawn|
    ensures res.Success? ==> forall k :: 0 <= k < |drawn| ==>
              ScaleContain(items[drawn[k]].image, items[drawn[k]].w, items[drawn[k]].h) == Success(res.value[k])
    decreases |drawn|
  {
    if drawn == [] then Success([])
    else
      var it := items[drawn[0]];
      match ScaleContain(it.image, it.w, it.h)
      case Failure(e) => Failure(e)
      case Success(size) =>
        match ContainAll(items, drawn[1..])
        case Failure(e) =>
          assert exists k :: 0 <= k < |drawn[1..]| && items[drawn[1..][k]].h == 0;
          Failure(e)
        case Success(rest) => Success([size] + rest)
  }

  /** Some item the draw pass visits has a box of zero height. */
  predicate ZeroBoxDrawn(r: Round)
  {
    exists i :: 0 <= i < |r.items| && IsDrawn(r, i) && r.items[i].h == 0
  }

  /** The draw pass fails, with ZeroDivisionError, exactly when a drawn box has zero height. */
  lemma DrawFailsIff(r: Round)
    requires r.showOnlyWinner && r.winner.Some? ==> r.winner.value < |r.items|
    ensures ContainAll(r.items, Drawn(r)).Failure? <==> ZeroBoxDrawn(r)
  {
    var d := Drawn(r);
    if ZeroBoxDrawn(r) {
      var i :| 0 <= i < |r.items| && IsDrawn(r, i) && r.items[i].h == 0;
      var k :| 0 <= k < |d| && d[k] == i;
    }
  }

  /**
   * The update and draw pass of a frame: every drawn item is updated, then
   * `scale_contain` runs on its box. It fails, with ZeroDivisionError, exactly when a
   * drawn item's box has zero height.
   */
  function Render(t: Session): (res: Result<Session>)
    requires SessionInv(t)
    ensures res.Success? ==> SessionInv(res.value)
    ensures res.Success? ==> res.value == t.(round := Animate(t.round))
    ensures res.Failure? <==> ZeroBoxDrawn(t.round)
    ensures res.Failure? ==> res.error == ZeroDivisionError
  {
    var r := Animate(t.round);
    DrawFailsIff(r);
    AnimateKeepsBoxes(t.round);
    match ContainAll(r.items, Drawn(r))
    case Failure(e) => Failure(e)
    case Success(_) => Success(t.(round := r))
  }

  /** The update pass draws the same items and leaves their boxes alone. */
  lemma AnimateKeepsBoxes(r: Round)
    requires Inv(r)
    ensures ZeroBoxDrawn(Animate(r)) <==> ZeroBoxDrawn(r)
  {
    var r' := Animate(r);
    assert forall i :: 0 <= i < |r'.items| ==> r'.items[i].h == r.items[i].h;
    if ZeroBoxDrawn(r) {
      var i :| 0 <= i < |r.items| && IsDrawn(r, i) && r.items[i].h == 0;
      assert IsDrawn(r', i) && r'.items[i].h == 0;
    }
    if ZeroBoxDrawn(r') {
      var i :| 0 <= i < |r'.items| && IsDrawn(r', i) && r'.items[i].h == 0;
      assert IsDrawn(r, i) && r.items[i].h == 0;
    }
  }

  /** One pass of the main loop after the input events: the timer, then the update and draw pass. */
  function Frame(s: Session, dt: nat, pick: nat, screen: Screen): (res: Result<Session>)
    requires SessionInv(s) && ValidPick(s.round, pick)
    ensures res.Success? ==> SessionInv(res.value)
    ensures res.Success? ==> Tick(s, dt, pick, screen).Success?
    ensures res.Success? ==>
              res.value == Tick(s, dt, pick, screen).value.(round := Animate(Tick(s, dt, pick, screen).value.round))
    ensures Tick(s, dt, pick, screen).Failure? ==> res == Tick(s, dt, pick, screen)
    ensures Tick(s, dt, pick, screen).Success? ==>
              (res.Failure? <==> ZeroBoxDrawn(Tick(s, dt, pick, screen).value.round))
    ensures res.Failure? ==> res.error == IndexError || res.error == ZeroDivisionError
  {
    match Tick(s, dt, pick, screen)
    case Failure(e) => Failure(e)
    case Success(t) => Render(t)
  }

  /**
   * Shrinking the window to 69-75 pixels high while the grid is shown gives every
   * item a zero box height, and the next frame's draw pass raises ZeroDivisionError.
   */
  lemma ShortWindowCrashes(s: Session, dt: nat, pick: nat, screen: Screen)
    requires SessionInv(s) && ValidPick(s.round, pick)
    requires !s.round.showOnlyWinner && s.round.items != []
    requires 69 <= screen.height <= 75
    ensures Frame(s.(round := Resize(s.round, screen)), dt, pick, screen) == Failure(ZeroDivisionError)
  {
    var s' := s.(round := Resize(s.round, screen));
    ThinCellsZeroBox(s.round.items, screen);
    assert SessionInv(s');
    var t := Tick(s', dt, pick, screen);
    assert t.Success?;
    assert forall i :: 0 <= i < |t.value.round.items| ==> t.value.round.items[i].h == 0;
    var r := t.value.round;
    if r.showOnlyWinner && r.winner.Some? {
      assert IsDrawn(r, r.winner.value);
    } else {
      assert IsDrawn(r, 0);
    }
    assert ZeroBoxDrawn(r);
  }

  /** Start-up: `reset()` on the initial 1200x800 window, then `timer = 0`. */
  function Initial(pool: seq<Image>, sample: seq<nat>, order: seq<nat>): (s: Session)
    requires ValidDraw(pool, sample, order)
    ensures SessionInv(s)
    ensures !s.round.running && s.timer == 0
    ensures |s.round.items| == Min(GRID_COUNT, |pool|)
  {
    Session(Reset(pool, sample, order, Screen(START_WIDTH, START_HEIGHT)), 0)
  }
}
