/**
 The circular-dominance rule of `GameRules.determineWinner`: over an ordered
 list of `n` moves, the user's move loses to the `n / 2` moves that follow it
 round the cycle and beats every other move.
 */
module Rules {
  import opened Cyclic

  /** The three answers of `determineWinner`, always from the user's point of view. */
  datatype Outcome = Draw | Win | Lose {

    /** The exact string `determineWinner` returns for this outcome. */
    function Message(): string {
      match this
      case Draw => "Draw"
      case Win => "You win!"
      case Lose => "You lose!"
    }

    /** The same game seen from the other player's side. */
    function Opposite(): Outcome {
      match this
      case Draw => Draw
      case Win => Lose
      case Lose => Win
    }
  }

  /** `Math.floor(n / 2)`: the number of moves each move beats, and loses to, when `n` is odd. */
  function Half(n: nat): (h: nat)
    ensures 2 * h <= n <= 2 * h + 1
  {
    n / 2
  }

  /** The source's `difference`: how many places the computer's move lies ahead of the user's. */
  function Difference(n: nat, user: nat, computer: nat): (d: nat)
    requires user < n && computer < n
    ensures d < n
    ensures Advance(n, user, d) == computer
    ensures d == 0 <==> user == computer
  {
    var d := Mod(computer - user + n, n);
    if computer >= user then
      assert d == Mod(computer - user, n);
      AdvanceCases(n, user, d);
      d
    else
      AdvanceCases(n, user, d);
      d
  }

  /** `Difference` is the value of `(computerMoveIndex - userMoveIndex + n) % n` itself. */
  lemma DifferenceIsRemainder(n: nat, user: nat, computer: nat)
    requires user < n && computer < n
    ensures Difference(n, user, computer) == (computer - user + n) % n
  {
    ModIsRemainder(computer - user + n, n);
  }

  /** The distance from one move to another is the only distance below `n` that reaches it. */
  lemma DifferenceUnique(n: nat, user: nat, computer: nat, d: nat)
    requires user < n && computer < n && d < n
    requires Advance(n, user, d) == computer
    ensures d == Difference(n, user, computer)
  {
    AdvanceInjective(n, user, d, Difference(n, user, computer));
  }

  /** `determineWinner(userMoveIndex, computerMoveIndex)` over a move list of length `n`. */
  function DetermineWinner(n: nat, user: nat, computer: nat): (r: Outcome)
    requires user < n && computer < n
    ensures r == Draw <==> user == computer
  {
    if user == computer then Draw
    else
      var half := Half(n);
      var difference := Difference(n, user, computer);
      if difference <= half then Lose else Win
  }

  /**
   The meaning of the rule: the user's move loses exactly to the moves 1..n/2
   places ahead of it round the cycle, and beats exactly the moves further ahead.
   */
  lemma LosesExactlyToNextHalf(n: nat, user: nat, computer: nat)
    requires user < n && computer < n
    ensures DetermineWinner(n, user, computer) == Lose
        <==> exists d :: 1 <= d <= Half(n) && Advance(n, user, d) == computer
    ensures DetermineWinner(n, user, computer) == Win
        <==> exists d :: Half(n) < d < n && Advance(n, user, d) == computer
  {
    var diff := Difference(n, user, computer);
    if exists d :: 1 <= d <= Half(n) && Advance(n, user, d) == computer {
      var d :| 1 <= d <= Half(n) && Advance(n, user, d) == computer;
      DifferenceUnique(n, user, computer, d);
    }
    if exists d :: Half(n) < d < n && Advance(n, user, d) == computer {
      var d :| Half(n) < d < n && Advance(n, user, d) == computer;
      DifferenceUnique(n, user, computer, d);
    }
  }

  /**
   Turning the cycle: shifting both moves by the same number of places leaves
   the result unchanged, so no position in the move list is favoured.
   */
  lemma RotationInvariant(n: nat, user: nat, computer: nat, k: nat)
    requires user < n && computer < n
    ensures DetermineWinner(n, Advance(n, user, k), Advance(n, computer, k))
         == DetermineWinner(n, user, computer)
  {
    var d := Difference(n, user, computer);
    AdvanceSwap(n, user, k, d);
    DifferenceUnique(n, Advance(n, user, k), Advance(n, computer, k), d);
  }

  /** Distances in opposite directions between two different moves add up to one full lap. */
  lemma DifferencesSumToLap(n: nat, i: nat, j: nat)
    requires i < n && j < n && i != j
    ensures Difference(n, i, j) + Difference(n, j, i) == n
  {
    var d1, d2 := Difference(n, i, j), Difference(n, j, i);
    AdvanceCases(n, i, d1);
    AdvanceCases(n, j, d2);
  }

  /**
   Antisymmetry: with an odd number of moves, swapping the two players turns
   a win into a loss and a loss into a win.
   */
  lemma Antisymmetric(n: nat, i: nat, j: nat)
    requires n % 2 == 1
    requires i < n && j < n
    ensures DetermineWinner(n, j, i) == DetermineWinner(n, i, j).Opposite()
  {
    if i != j {
      DifferencesSumToLap(n, i, j);
    }
  }

  /**
   Oddness cannot be dropped: with an even number `n` of moves, the two moves
   exactly half a lap apart each lose to the other.
   */
  lemma EvenCountBreaksAntisymmetry(n: nat)
    requires n >= 2 && n % 2 == 0
    ensures DetermineWinner(n, 0, n / 2) == Lose
    ensures DetermineWinner(n, n / 2, 0) == Lose
  {
  }

  /** The computer moves the user's move `user` loses to. */
  function LossesOf(n: nat, user: nat): set<nat>
    requires user < n
  {
    set c: nat | c < n && DetermineWinner(n, user, c) == Lose
  }

  /** The computer moves the user's move `user` beats. */
  function WinsOf(n: nat, user: nat): set<nat>
    requires user < n
  {
    set c: nat | c < n && DetermineWinner(n, user, c) == Win
  }

  /** The positions `lo..hi-1` places ahead of `start`. */
  function Arc(n: nat, start: nat, lo: nat, hi: nat): set<nat>
    requires n > 0
  {
    set d: nat | lo <= d < hi :: Advance(n, start, d)
  }

  /** An arc shorter than the cycle covers as many distinct positions as it is long. */
  lemma {:induction false} ArcSize(n: nat, start: nat, lo: nat, hi: nat)
    requires start < n && lo <= hi <= n
    ensures |Arc(n, start, lo, hi)| == hi - lo
    decreases hi - lo
  {
    if lo == hi {
      assert Arc(n, start, lo, hi) == {};
    } else {
      var last := Advance(n, start, hi - 1);
      ArcSize(n, start, lo, hi - 1);
      assert Arc(n, start, lo, hi) == Arc(n, start, lo, hi - 1) + {last};
      forall d: nat | lo <= d < hi - 1
        ensures Advance(n, start, d) != last
      {
        if Advance(n, start, d) == last {
          AdvanceInjective(n, start, d, hi - 1);
        }
      }
      assert last !in Arc(n, start, lo, hi - 1);
    }
  }

  /**
   Balance: every move loses to exactly `n / 2` moves and beats exactly the
   remaining `n - 1 - n / 2`; with an odd `n` both counts are `n / 2`.
   */
  lemma Balanced(n: nat, user: nat)
    requires user < n
    ensures |LossesOf(n, user)| == Half(n)
    ensures |WinsOf(n, user)| == n - 1 - Half(n)
    ensures n % 2 == 1 ==> |WinsOf(n, user)| == Half(n)
  {
    forall c: nat | c < n
      ensures c in LossesOf(n, user) <==> c in Arc(n, user, 1, Half(n) + 1)
      ensures c in WinsOf(n, user) <==> c in Arc(n, user, Half(n) + 1, n)
    {
      LosesExactlyToNextHalf(n, user, c);
    }
    assert LossesOf(n, user) == Arc(n, user, 1, Half(n) + 1);
    assert WinsOf(n, user) == Arc(n, user, Half(n) + 1, n);
    ArcSize(n, user, 1, Half(n) + 1);
    ArcSize(n, user, Half(n) + 1, n);
  }

  /**
   The order `rock paper scissors` from the usage line pins the direction of
   the rule to the classic game: paper beats rock, scissors beat paper, rock
   beats scissors.
   */
  lemma ClassicConvention()
    ensures DetermineWinner(3, 0, 1).Message() == "You lose!"
    ensures DetermineWinner(3, 1, 2).Message() == "You lose!"
    ensures DetermineWinner(3, 2, 0).Message() == "You lose!"
    ensures DetermineWinner(3, 0, 2).Message() == "You win!"
    ensures DetermineWinner(3, 1, 0).Message() == "You win!"
    ensures DetermineWinner(3, 2, 1).Message() == "You win!"
  {
  }
}
