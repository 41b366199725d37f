/**
 * The lucky-draw engine of the prize-draw panel: the pool of eligible
 * candidates, the slot-machine spin that cycles names on a slowing timer, the
 * commit of a winner to the history, and the history reset.
 *
 * The random index of every cycled name and of the winner is a parameter that
 * must lie inside the pool; the timer chain is a sequence of `Tick` calls; the
 * commit instant is a parameter `now`.
 */
module PrizeDraw {
  import opened Types
  import opened Seqs

  /** The text on the display before any draw and after a reset. */
  const READY_TEXT: string := "Ready to Draw"
  /** The delay between the first cycled names, in milliseconds. */
  const INITIAL_SPEED: nat := 50
  /** The spin stops once this much time has been cycled through. */
  const DURATION: nat := 3000
  /** Inside the last second of the spin the delay grows on every tick. */
  const SLOWDOWN_WINDOW: nat := 1000
  /** How much the delay grows per tick inside the slowdown window. */
  const SPEED_STEP: nat := 10
  /** The number of names cycled in one spin, the last one included. */
  const SPIN_TICKS: nat := 51

  // ------------------------------------------------------------- candidates

  /** Some history entry was won by the person with this id. */
  predicate HasWon(history: seq<DrawHistoryItem>, id: string) {
    exists k :: 0 <= k < |history| && history[k].winner.id == id
  }

  /** The test "this person has not won yet". */
  function NotWon(history: seq<DrawHistoryItem>): Person -> bool {
    (p: Person) => !HasWon(history, p.id)
  }

  /**
   * The candidate pool: the whole roster when repeat winners are allowed,
   * otherwise the roster without everyone who already won, in roster order.
   */
  function Eligible(people: seq<Person>, history: seq<DrawHistoryItem>, allowRepeats: bool): (r: seq<Person>)
    ensures allowRepeats ==> r == people
    ensures !allowRepeats ==> IsSubsequence(r, people)
    ensures !allowRepeats ==> forall p :: p in r <==> p in people && !HasWon(history, p.id)
  {
    if allowRepeats then people else Filter(people, NotWon(history))
  }

  /** A new entry at the front adds exactly its winner to the winners. */
  lemma HasWonCons(item: DrawHistoryItem, history: seq<DrawHistoryItem>, id: string)
    ensures HasWon([item] + history, id) <==> item.winner.id == id || HasWon(history, id)
  {
    var h := [item] + history;
    if HasWon(history, id) {
      var k :| 0 <= k < |history| && history[k].winner.id == id;
      assert h[k + 1] == history[k];
    }
    if HasWon(h, id) && item.winner.id != id {
      var k :| 0 <= k < |h| && h[k].winner.id == id;
      assert k > 0 && history[k - 1] == h[k];
    }
    assert h[0] == item;
  }

  /** Without repeats, a new winner leaves the pool and nobody else does. */
  lemma EligibleAfterWin(people: seq<Person>, item: DrawHistoryItem, history: seq<DrawHistoryItem>)
    ensures Eligible(people, [item] + history, false) == WithoutId(Eligible(people, history, false), item.winner.id)
  {
    forall p: Person ensures NotWon([item] + history)(p) == (NotWon(history)(p) && IdIsNot(item.winner.id)(p)) {
      HasWonCons(item, history, p.id);
    }
    FilterFilter(people, NotWon(history), IdIsNot(item.winner.id), NotWon([item] + history));
  }

  /**
   * The history was built by draws with repeats off from `people`: every
   * winner was in the pool that the older entries left.
   */
  predicate DrawnWithoutRepeats(people: seq<Person>, history: seq<DrawHistoryItem>)
    decreases |history|
  {
    history == [] ||
    (history[0].winner in Eligible(people, history[1..], false) && DrawnWithoutRepeats(people, history[1..]))
  }

  /** With repeats off and distinct ids, every draw shrinks the pool by exactly one. */
  lemma {:induction false} RemainingAfterDraws(people: seq<Person>, history: seq<DrawHistoryItem>)
    requires UniqueIds(people)
    requires DrawnWithoutRepeats(people, history)
    ensures |history| <= |people|
    ensures |Eligible(people, history, false)| == |people| - |history|
    decreases |history|
  {
    if history == [] {
      FilterAll(people, NotWon(history));
    } else {
      RemainingAfterDraws(people, history[1..]);
      DrawShrinksPool(people, history);
    }
  }

  /** With distinct ids, a draw without repeats of someone in the pool shrinks it by exactly one. */
  lemma DrawShrinksPool(people: seq<Person>, history: seq<DrawHistoryItem>)
    requires UniqueIds(people)
    requires history != [] && history[0].winner in Eligible(people, history[1..], false)
    ensures |Eligible(people, history, false)| == |Eligible(people, history[1..], false)| - 1
  {
    var item, rest := history[0], history[1..];
    assert history == [item] + rest;
    var pool := Eligible(people, rest, false);
    FilterKeepsUniqueIds(people, NotWon(rest));
    var i :| 0 <= i < |pool| && pool[i] == item.winner;
    WithoutPresentId(pool, item.winner.id);
    EligibleAfterWin(people, item, rest);
  }

  /** Once every one of `n` distinct people has won, the pool is empty and no draw starts. */
  lemma PoolExhausted(people: seq<Person>, history: seq<DrawHistoryItem>)
    requires UniqueIds(people)
    requires DrawnWithoutRepeats(people, history)
    requires |history| == |people|
    ensures Eligible(people, history, false) == []
  {
    RemainingAfterDraws(people, history);
  }

  // ------------------------------------------------------------------ spin

  /** The delay after a tick that brought the cycled time to `elapsed`. */
  function NextSpeed(elapsed: nat, speed: nat): (r: nat)
    ensures r == speed || r == speed + SPEED_STEP
    ensures r > speed <==> elapsed > DURATION - SLOWDOWN_WINDOW
  {
    if elapsed > DURATION - SLOWDOWN_WINDOW then speed + SPEED_STEP else speed
  }

  /** How many more names the spin cycles from this point, the finishing one included. */
  function TicksLeft(elapsed: nat, speed: nat): (n: nat)
    requires speed >= INITIAL_SPEED
    ensures n >= 1
    ensures n == 1 <==> elapsed + speed >= DURATION
    decreases DURATION - elapsed
  {
    var next := elapsed + speed;
    if next >= DURATION then 1 else 1 + TicksLeft(next, NextSpeed(next, speed))
  }

  /** The last five ticks of a spin, each 10 ms slower than the one before. */
  lemma FinalTicks()
    ensures TicksLeft(2450, 110) == 5
  {
    assert TicksLeft(2950, 150) == 1;
    assert TicksLeft(2810, 140) == 2;
    assert TicksLeft(2680, 130) == 3;
    assert TicksLeft(2560, 120) == 4;
  }

  /** From the start of the slowdown window, a spin lasts eleven more ticks. */
  lemma SlowdownTicks()
    ensures TicksLeft(2000, INITIAL_SPEED) == 11
  {
    FinalTicks();
    assert TicksLeft(2350, 100) == 6;
    assert TicksLeft(2260, 90) == 7;
    assert TicksLeft(2180, 80) == 8;
    assert TicksLeft(2110, 70) == 9;
    assert TicksLeft(2050, 60) == 10;
  }

  /** Before the slowdown window, every tick advances 50 ms at unchanged speed. */
  lemma {:induction false} SteadyPhase(k: nat)
    requires k <= 40
    ensures TicksLeft(2000 - 50 * k, INITIAL_SPEED) == k + 11
  {
    if k == 0 {
      SlowdownTicks();
    } else {
      SteadyPhase(k - 1);
    }
  }

  /** A spin started at zero with the initial delay cycles exactly 51 names. */
  lemma SpinLength()
    ensures TicksLeft(0, INITIAL_SPEED) == SPIN_TICKS
  {
    SteadyPhase(40);
  }

  // --------------------------------------------------------------- history

  /** The number shown on history entry `idx`: the newest entry carries the highest. */
  function EntryNumber(history: seq<DrawHistoryItem>, idx: nat): (n: nat)
    requires idx < |history|
    ensures 1 <= n <= |history|
  {
    |history| - idx
  }

  /** A new entry at the front takes the next number and every older entry keeps its own. */
  lemma EntryNumbersAfterDraw(item: DrawHistoryItem, history: seq<DrawHistoryItem>, idx: nat)
    requires idx < |history|
    ensures EntryNumber([item] + history, 0) == |history| + 1
    ensures EntryNumber([item] + history, idx + 1) == EntryNumber(history, idx)
  {
  }

  /** Entry numbers are distinct: they run from `|history|` down to 1. */
  lemma EntryNumbersDistinct(history: seq<DrawHistoryItem>, i: nat, j: nat)
    requires i < j < |history|
    ensures EntryNumber(history, i) > EntryNumber(history, j)
  {
  }

  /** What the display shows while no spin runs: the newest winner, or the ready text. */
  predicate ShowsLatest(history: seq<DrawHistoryItem>, display: string) {
    if history == [] then display == READY_TEXT else display == history[0].winner.name
  }

  // ---------------------------------------------------------------- engine

  /**
   * The panel state. `pool`, `speed` and `elapsed` are the variables that one
   * draw's closures share: the candidates as they were when the draw started,
   * the current delay and the time cycled so far. `ticks` counts the names
   * cycled in the running spin.
   */
  class DrawEngine {
    var allowRepeats: bool
    var history: seq<DrawHistoryItem>
    var isSpinning: bool
    var currentDisplay: string
    var pool: seq<Person>
    var speed: nat
    var elapsed: nat
    ghost var ticks: nat

    /**
     * A running spin has a non-empty pool and is on its way to the 51st tick;
     * an idle display shows the newest winner, or the ready text.
     */
    ghost predicate Valid()
      reads this
    {
      && (isSpinning ==>
        && |pool| > 0
        && speed >= INITIAL_SPEED
        && elapsed < DURATION
        && ticks + TicksLeft(elapsed, speed) == SPIN_TICKS)
      && (!isSpinning ==> ShowsLatest(history, currentDisplay))
    }

    constructor()
      ensures Valid()
      ensures !allowRepeats && history == [] && !isSpinning && currentDisplay == READY_TEXT
    {
      allowRepeats := false;
      history := [];
      isSpinning := false;
      currentDisplay := READY_TEXT;
      pool := [];
      speed := INITIAL_SPEED;
      elapsed := 0;
      ticks := 0;
    }

    /** The "Allow Repeat Winners" checkbox. A running spin keeps the pool it started with. */
    method SetAllowRepeats(value: bool)
      requires Valid()
      modifies this
      ensures Valid()
      ensures allowRepeats == value
      ensures history == old(history) && isSpinning == old(isSpinning) && currentDisplay == old(currentDisplay)
      ensures pool == old(pool) && speed == old(speed) && elapsed == old(elapsed) && ticks == old(ticks)
    {
      allowRepeats := value;
    }

    /**
     * `cycleNames`: shows the picked candidate, advances the cycled time by the
     * current delay and reports whether the spin is over; inside the slowdown
     * window a spin that goes on gets a longer delay.
     */
    method CycleNames(displayPick: nat) returns (done: bool)
      requires Valid() && isSpinning
      requires displayPick < |pool|
      modifies this
      ensures isSpinning && pool == old(pool) && history == old(history) && allowRepeats == old(allowRepeats)
      ensures currentDisplay == pool[displayPick].name
      ensures elapsed == old(elapsed) + old(speed)
      ensures done <==> elapsed >= DURATION
      ensures ticks == old(ticks) + 1
      ensures done <==> ticks == SPIN_TICKS
      ensures done ==> speed == old(speed)
      ensures !done ==> speed == NextSpeed(elapsed, old(speed)) && Valid()
    {
      currentDisplay := pool[displayPick].name;
      elapsed := elapsed + speed;
      ticks := ticks + 1;
      done := elapsed >= DURATION;
      if !done {
        speed := NextSpeed(elapsed, speed);
      }
    }

    /**
     * `startDraw`: nothing happens when the pool is empty or a spin runs;
     * otherwise the current pool is captured, the counters start at 50 ms and
     * zero, and the first name is cycled at once.
     */
    method StartDraw(people: seq<Person>, displayPick: nat) returns (started: bool)
      requires Valid()
      requires |Eligible(people, history, allowRepeats)| > 0 ==> displayPick < |Eligible(people, history, allowRepeats)|
      modifies this
      ensures Valid()
      ensures started <==> |old(Eligible(people, history, allowRepeats))| > 0 && !old(isSpinning)
      ensures !started ==> unchanged(this)
      ensures started ==>
        && isSpinning
        && pool == old(Eligible(people, history, allowRepeats))
        && currentDisplay == pool[displayPick].name
        && elapsed == INITIAL_SPEED && speed == INITIAL_SPEED && ticks == 1
        && history == old(history) && allowRepeats == old(allowRepeats)
    {
      var candidates := Eligible(people, history, allowRepeats);
      if |candidates| == 0 {
        return false;
      }
      if isSpinning {
        return false;
      }
      Begin(candidates, displayPick);
      started := true;
    }

    /** The part of `startDraw` past its guards: capture the pool, reset the counters, cycle the first name. */
    method Begin(candidates: seq<Person>, displayPick: nat)
      requires Valid() && !isSpinning
      requires displayPick < |candidates|
      modifies this
      ensures Valid()
      ensures isSpinning && pool == candidates && currentDisplay == pool[displayPick].name
      ensures elapsed == INITIAL_SPEED && speed == INITIAL_SPEED && ticks == 1
      ensures history == old(history) && allowRepeats == old(allowRepeats)
    {
      isSpinning := true;
      pool := candidates;
      speed := INITIAL_SPEED;
      elapsed := 0;
      ticks := 0;
      SpinLength();
      assert Valid();
      var done := CycleNames(displayPick);
    }

    /**
     * `finishDraw`: commits the picked pool member as the winner, stamped with
     * `now`, in front of the history, shows its name and stops the spin.
     */
    method FinishDraw(winnerPick: nat, now: int)
      requires isSpinning && winnerPick < |pool|
      modifies this
      ensures pool == old(pool) && speed == old(speed) && elapsed == old(elapsed) && ticks == old(ticks)
      ensures Valid()
      ensures history == [DrawHistoryItem(now, pool[winnerPick])] + old(history)
      ensures currentDisplay == history[0].winner.name
      ensures !isSpinning
      ensures allowRepeats == old(allowRepeats)
    {
      var winner := pool[winnerPick];
      currentDisplay := winner.name;
      isSpinning := false;
      history := [DrawHistoryItem(now, winner)] + history;
    }

    /**
     * One timer firing: cycles a name and, when the spin is over, commits the
     * winner. The spin is over exactly on the 51st name.
     */
    method Tick(displayPick: nat, winnerPick: nat, now: int) returns (finished: bool)
      requires Valid() && isSpinning
      requires displayPick < |pool| && winnerPick < |pool|
      modifies this
      ensures Valid()
      ensures finished <==> old(elapsed) + old(speed) >= DURATION
      ensures finished <==> old(ticks) + 1 == SPIN_TICKS
      ensures pool == old(pool) && allowRepeats == old(allowRepeats)
      ensures !finished ==>
        && isSpinning
        && currentDisplay == pool[displayPick].name
        && elapsed == old(elapsed) + old(speed)
        && speed == NextSpeed(elapsed, old(speed))
        && history == old(history)
      ensures finished ==>
        && !isSpinning
        && history == [DrawHistoryItem(now, pool[winnerPick])] + old(history)
        && currentDisplay == history[0].winner.name
    {
      finished := CycleNames(displayPick);
      if finished {
        FinishDraw(winnerPick, now);
      }
    }

    /**
     * A whole draw: the start, then the timer firings until the winner is
     * committed. `displayPicks` are the indexes of the cycled names, one per tick.
     */
    method Draw(people: seq<Person>, displayPicks: seq<nat>, winnerPick: nat, now: int) returns (drawn: bool)
      requires Valid()
      requires |displayPicks| == SPIN_TICKS
      requires |Eligible(people, history, allowRepeats)| > 0 ==>
        && (forall i :: 0 <= i < |displayPicks| ==> displayPicks[i] < |Eligible(people, history, allowRepeats)|)
        && winnerPick < |Eligible(people, history, allowRepeats)|
      modifies this
      ensures Valid()
      ensures drawn <==> |old(Eligible(people, history, allowRepeats))| > 0 && !old(isSpinning)
      ensures !drawn ==> unchanged(this)
      ensures drawn ==>
        && !isSpinning
        && history == [DrawHistoryItem(now, old(Eligible(people, history, allowRepeats))[winnerPick])] + old(history)
        && history[0].winner in old(Eligible(people, history, allowRepeats))
        && currentDisplay == history[0].winner.name
        && allowRepeats == old(allowRepeats)
      ensures drawn && old(!allowRepeats && DrawnWithoutRepeats(people, history)) ==> DrawnWithoutRepeats(people, history)
    {
      drawn := StartDraw(people, displayPicks[0]);
      if drawn {
        Spin(displayPicks, winnerPick, now);
        assert history[1..] == old(history);
      }
    }

    /** The timer firings of one spin, from its first cycled name until the winner is committed. */
    method Spin(displayPicks: seq<nat>, winnerPick: nat, now: int)
      requires Valid() && isSpinning && ticks == 1
      requires |displayPicks| == SPIN_TICKS
      requires forall i :: 0 <= i < |displayPicks| ==> displayPicks[i] < |pool|
      requires winnerPick < |pool|
      modifies this
      ensures Valid() && !isSpinning
      ensures pool == old(pool) && allowRepeats == old(allowRepeats)
      ensures history == [DrawHistoryItem(now, pool[winnerPick])] + old(history)
      ensures currentDisplay == history[0].winner.name
    {
      var i := 1;
      var finished := false;
      while !finished
        invariant 1 <= i <= SPIN_TICKS
        invariant pool == old(pool) && allowRepeats == old(allowRepeats)
        invariant !finished ==> Valid() && isSpinning && ticks == i && history == old(history)
        invariant finished ==>
          && Valid() && !isSpinning
          && history == [DrawHistoryItem(now, pool[winnerPick])] + old(history)
          && currentDisplay == history[0].winner.name
        decreases SPIN_TICKS - i, !finished
      {
        finished := Tick(displayPicks[i], winnerPick, now);
        if !finished {
          i := i + 1;
        }
      }
    }

    /** `resetHistory`: once the user confirms, the history is empty and the display back to the ready text. */
    method ResetHistory(confirmed: bool)
      requires Valid()
      modifies this
      ensures Valid()
      ensures confirmed ==> history == [] && currentDisplay == READY_TEXT
      ensures !confirmed ==> history == old(history) && currentDisplay == old(currentDisplay)
      ensures isSpinning == old(isSpinning) && allowRepeats == old(allowRepeats)
      ensures pool == old(pool) && speed == old(speed) && elapsed == old(elapsed) && ticks == old(ticks)
    {
      if confirmed {
        history := [];
        currentDisplay := READY_TEXT;
      }
    }
  }
}
