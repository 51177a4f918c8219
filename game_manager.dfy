/** The level-progress state machine of the game's `GameManager`: one
    objective counter per piece type that scoring counts down, the check that
    every objective is met, and the move budget. The win and lose panels are
    modelled by the flags `winShown` and `loseShown`. */
module Game {
  import opened Numerics

  /** Upper bound of the clamp applied to an objective entry after scoring */
  const ObjectiveCap: int := 1000

  /** How a call to `Score` ends: normally, or with the index exception the
      runtime raises for a piece type outside the objective array. */
  datatype Outcome = Done | IndexOutOfRange

  // ---------------------------------------------------------------------
  // Objectives

  /** The value an objective entry takes when a piece of its type is scored:
      decremented as a C# `int`, then clamped to [0, ObjectiveCap]. */
  function ScoredEntry(v: int32): (r: int32)
    ensures 0 <= r <= ObjectiveCap
    ensures 1 <= v <= ObjectiveCap + 1 ==> r == v - 1
    ensures MinInt32 < v <= 1 ==> r == 0
    ensures v > ObjectiveCap + 1 ==> r == ObjectiveCap
    ensures v == MinInt32 ==> r == ObjectiveCap
  {
    Clamp(Dec32(v), 0, ObjectiveCap)
  }

  /** The level is cleared when no objective entry is still positive. */
  predicate Cleared(objectives: seq<int32>) {
    forall i :: 0 <= i < |objectives| ==> objectives[i] <= 0
  }

  /** The entry `v` after `n` pieces of its type were scored */
  function ScoredTimes(v: int32, n: nat): int32 {
    if n == 0 then v else ScoredEntry(ScoredTimes(v, n - 1))
  }

  /** The count an entry effectively starts from once it has been scored:
      the first scoring caps it at ObjectiveCap (so it acts as if it were
      ObjectiveCap + 1), and `int.MinValue` wraps round to the top. */
  function EffectiveStart(v: int32): int {
    if v == MinInt32 || v > ObjectiveCap + 1 then ObjectiveCap + 1 else v
  }

  /** After `n >= 1` scorings an entry holds its effective start minus `n`,
      never below zero: scoring counts down one per piece and then stays 0. */
  lemma {:induction false} ScoredTimesClosedForm(v: int32, n: nat)
    requires n >= 1
    ensures ScoredTimes(v, n) == if EffectiveStart(v) - n < 0 then 0 else EffectiveStart(v) - n
  {
    if n > 1 {
      ScoredTimesClosedForm(v, n - 1);
    }
  }

  /** For an objective configured within [0, ObjectiveCap], the entry is met
      exactly once at least that many pieces of its type were scored; an
      entry already at 0 stays at 0. */
  lemma ScoringMeetsObjective(v: int32, n: nat)
    requires 0 <= v <= ObjectiveCap
    ensures ScoredTimes(v, n) <= 0 <==> n >= v
    ensures v == 0 ==> ScoredTimes(v, n) == 0
  {
    if n >= 1 {
      ScoredTimesClosedForm(v, n);
    }
  }

  /** Scoring keeps a cleared level cleared, unless the scored entry is
      `int.MinValue`, which wraps round and re-opens the objective. */
  lemma ScoreKeepsCleared(objectives: seq<int32>, i: nat)
    requires i < |objectives| && Cleared(objectives)
    ensures Cleared(objectives[i := ScoredEntry(objectives[i])]) <==> objectives[i] != MinInt32
  {
    var after := objectives[i := ScoredEntry(objectives[i])];
    if objectives[i] == MinInt32 {
      assert after[i] > 0;
    }
  }

  // ---------------------------------------------------------------------
  // Move budget

  /** The moves-used counter after `turns` moves: C# `++` applied to 0 */
  function UsedAfter(turns: nat): int32 {
    if turns == 0 then 0 else Inc32(UsedAfter(turns - 1))
  }

  /** The moves-left counter after `turns` moves: C# `--` applied to `max` */
  function LeftAfter(max: int32, turns: nat): int32 {
    if turns == 0 then max else Dec32(LeftAfter(max, turns - 1))
  }

  /** Whether the lose panel has been shown after `turns` moves from a
      budget of `max`: some move left the moves-left counter negative. */
  function LoseReached(max: int32, turns: nat): bool {
    turns > 0 && (LoseReached(max, turns - 1) || LeftAfter(max, turns) < 0)
  }

  /** The move on which the lose panel first appears: move max + 1 for a
      non-negative budget, the first move for a negative one, and for
      `int.MinValue` the move after the counter has wrapped all the way
      round through the positive values. */
  function FirstLoseTurn(max: int32): nat {
    if max >= 0 then max + 1
    else if max > MinInt32 then 1
    else 0x8000_0001
  }

  /** After `turns` moves the moves-used counter holds the move count
      reduced to a C# `int` modulo 2^32. */
  lemma {:induction false} UsedClosedForm(turns: nat)
    ensures UsedAfter(turns) == Wrap32(turns)
  {
    if turns > 0 {
      var before := UsedAfter(turns - 1);
      UsedClosedForm(turns - 1);
      StepsWrap(before);
      WrapAdd(turns - 1, 1);
      assert UsedAfter(turns) == Wrap32(Wrap32(turns - 1) + 1);
    }
  }

  /** After `turns` moves the moves-left counter holds the budget minus the
      move count, reduced to a C# `int` modulo 2^32. */
  lemma {:induction false} LeftClosedForm(max: int32, turns: nat)
    ensures LeftAfter(max, turns) == Wrap32(max - turns)
  {
    if turns > 0 {
      var before := LeftAfter(max, turns - 1);
      LeftClosedForm(max, turns - 1);
      StepsWrap(before);
      WrapAdd(max - (turns - 1), -1);
    }
  }

  /** The moves-left counter for the moves up to the first losing one: not
      negative before it, negative on it. */
  lemma MovesLeftBeforeLoss(max: int32, t: nat)
    requires 1 <= t <= FirstLoseTurn(max)
    ensures LeftAfter(max, t) < 0 <==> t == FirstLoseTurn(max)
  {
    LeftClosedForm(max, t);
    if max == MinInt32 {
      WrapCongruent(max - t, 0x8000_0000 - t);
    }
  }

  /** The lose panel has been shown exactly from move FirstLoseTurn(max) on:
      it appears on that move and, however the counter wraps later, stays. */
  lemma {:induction false} LoseReachedIff(max: int32, turns: nat)
    ensures LoseReached(max, turns) <==> turns >= FirstLoseTurn(max)
  {
    if turns > 0 {
      LoseReachedIff(max, turns - 1);
      if turns <= FirstLoseTurn(max) {
        MovesLeftBeforeLoss(max, turns);
      }
    }
  }

  /** After any number of moves the used and left counters add up to the
      budget as C# `int`s, and exactly while neither counter has wrapped. */
  lemma BudgetBalance(max: int32, turns: nat)
    ensures Wrap32(UsedAfter(turns) + LeftAfter(max, turns)) == max
    ensures turns <= MaxInt32 && max - turns >= MinInt32 ==> UsedAfter(turns) + LeftAfter(max, turns) == max
  {
    UsedClosedForm(turns);
    LeftClosedForm(max, turns);
    WrapAdd(turns, Wrap32(max - turns));
    assert Wrap32(turns + Wrap32(max - turns)) == Wrap32(Wrap32(max - turns) + turns);
    WrapAdd(max - turns, turns);
  }

  // ---------------------------------------------------------------------
  // The game manager

  class GameManager {
    /** The level's move budget (`MaximunNumberOfMoves`) */
    const maxMoves: int32
    var movesUsed: int32
    var movesLeft: int32
    /** Objective per piece type; the array itself is never replaced */
    const levelObjective: array<int32>
    /** Stand-ins for `WinPanel.SetActive(true)` and `LosePanel.SetActive(true)` */
    ghost var winShown: bool
    ghost var loseShown: bool
    /** The number of moves used since Start, as an unbounded count */
    ghost var turns: nat

    /** The counters are those reached after `turns` moves, and the lose
        panel is up exactly when some move drove moves-left negative. */
    ghost predicate Valid()
      reads this
    {
      && movesUsed == UsedAfter(turns)
      && movesLeft == LeftAfter(maxMoves, turns)
      && loseShown == LoseReached(maxMoves, turns)
    }

    /** The manager as configured in the level, after `Start`: no move used,
        the whole budget left, neither panel shown. */
    constructor (maximumNumberOfMoves: int32, objectives: seq<int32>)
      ensures Valid() && fresh(levelObjective)
      ensures maxMoves == maximumNumberOfMoves
      ensures movesUsed == 0 && movesLeft == maxMoves && turns == 0
      ensures levelObjective[..] == objectives
      ensures !winShown && !loseShown
    {
      maxMoves := maximumNumberOfMoves;
      levelObjective := new int32[|objectives|](i requires 0 <= i < |objectives| => objectives[i]);
      movesUsed := 0;
      movesLeft := maximumNumberOfMoves;
      winShown, loseShown := false, false;
      turns := 0;
    }

    /** Scores one piece of type `piece`: counts its objective down, clamped
        to [0, ObjectiveCap], and shows the win panel if the level is now
        cleared. An index outside the objectives raises before any change. */
    method Score(piece: int) returns (outcome: Outcome)
      requires Valid()
      modifies this`winShown, levelObjective
      ensures Valid()
      ensures outcome == if 0 <= piece < levelObjective.Length then Done else IndexOutOfRange
      ensures outcome == IndexOutOfRange ==> levelObjective[..] == old(levelObjective[..])
      ensures outcome == Done ==> levelObjective[piece] == ScoredEntry(old(levelObjective[piece]))
      ensures forall j :: 0 <= j < levelObjective.Length && j != piece ==> levelObjective[j] == old(levelObjective[j])
      ensures winShown == (old(winShown) || (outcome == Done && Cleared(levelObjective[..])))
      ensures movesUsed == old(movesUsed) && movesLeft == old(movesLeft)
      ensures loseShown == old(loseShown) && turns == old(turns)
    {
      if !(0 <= piece < levelObjective.Length) {
        return IndexOutOfRange;
      }
      levelObjective[piece] := Dec32(levelObjective[piece]);
      levelObjective[piece] := Clamp(levelObjective[piece], 0, ObjectiveCap) as int32;
      var cleared := LevelIsCleared();
      if cleared {
        winShown := true;
      }
      outcome := Done;
    }

    /** Whether every objective is met, scanning the entries in order and
        stopping at the first one still positive. */
    method LevelIsCleared() returns (cleared: bool)
      ensures cleared <==> forall k :: 0 <= k < levelObjective.Length ==> levelObjective[k] <= 0
    {
      for i := 0 to levelObjective.Length
        invariant forall k :: 0 <= k < i ==> levelObjective[k] <= 0
      {
        if levelObjective[i] > 0 {
          return false;
        }
      }
      return true;
    }

    /** Spends one move: one more used, one fewer left (both as C# `int`s),
        and the lose panel once moves-left is negative. */
    method UseMove()
      requires Valid()
      modifies this`movesUsed, this`movesLeft, this`loseShown, this`turns
      ensures Valid()
      ensures turns == old(turns) + 1
      ensures movesUsed == Inc32(old(movesUsed)) && movesLeft == Dec32(old(movesLeft))
      ensures loseShown == (old(loseShown) || movesLeft < 0)
      ensures loseShown <==> turns >= FirstLoseTurn(maxMoves)
      ensures winShown == old(winShown) && unchanged(levelObjective)
    {
      movesUsed := Inc32(movesUsed);
      movesLeft := Dec32(movesLeft);
      turns := turns + 1;
      if movesLeft < 0 {
        loseShown := true;
      }
      LoseReachedIff(maxMoves, turns);
    }

    /** In every valid state the used and left counters add up to the
        budget modulo 2^32, and exactly until one of them wraps. */
    lemma MovesBalance()
      requires Valid()
      ensures Wrap32(movesUsed as int + movesLeft as int) == maxMoves
      ensures turns <= MaxInt32 && maxMoves - turns >= MinInt32 ==> movesUsed + movesLeft == maxMoves
    {
      BudgetBalance(maxMoves, turns);
    }
  }

  /** A short level played through the manager's contracts alone: a budget of
      two moves loses on the third move, and the last objective point wins. */
  method PlayShortLevel() {
    var game := new GameManager(2, [1, 0]);
    game.UseMove();
    game.UseMove();
    assert game.movesLeft == 0 && !game.loseShown;
    game.UseMove();
    assert game.movesUsed == 3 && game.movesLeft == -1 && game.loseShown;
    var outcome := game.Score(2);
    assert outcome == IndexOutOfRange && !game.winShown;
    outcome := game.Score(0);
    assert game.levelObjective[..] == [0, 0];
    assert outcome == Done && game.winShown;
  }
}
