/**
 One game session: the computer's move is fixed and committed to by an HMAC
 before the user chooses; each chunk of input the handler receives is one step of a small
 state machine, Committed -> (help or invalid -> Committed)* -> Resolved or
 Exited.  The HMAC function and the key are parameters: the session only
 promises that the revealed key recomputes the published digest.
 */
module Game {
  import opened Rules
  import opened HelpTable
  import opened Validation

  /** The secret key, as the hex string that is revealed at the end. */
  type Key = string
  /** A keyed digest, as the hex string shown at the start. */
  type Digest = string
  /** A keyed hash function: digest of a message under a key. */
  type Hmac = (Key, string) -> Digest

  /** One `data` chunk of user input (usually one typed line), trimmed and classified. */
  datatype Token =
    | Exit                   // exactly "0"
    | Help                   // exactly "?"
    | Number(value: int)     // any other chunk that reads as the integer `value`
    | Other                  // anything that is not a number

  datatype Phase = Committed | Resolved(user: nat, outcome: Outcome) | Exited

  datatype Session = Session(moves: seq<string>, key: Key, computer: nat, hmac: Digest, phase: Phase)

  /** What the session shows in answer to one chunk of input. */
  datatype Reply =
    | Exiting
    | ShowHelp(table: seq<seq<Outcome>>)
    | Invalid
    | Reveal(userMove: string, computerMove: string, result: string, key: Key)

  datatype Transition = Transition(next: Session, reply: Reply)

  /** Anyone holding the key can recompute the digest of a claimed move. */
  predicate Verifies(h: Hmac, key: Key, move: string, digest: Digest) {
    h(key, move) == digest
  }

  /** What every reachable session satisfies. */
  ghost predicate Invariant(h: Hmac, s: Session) {
    && ValidMoves(s.moves)
    && s.computer < |s.moves|
    && Verifies(h, s.key, s.moves[s.computer], s.hmac)
    && (s.phase.Resolved? ==>
          s.phase.user < |s.moves| &&
          s.phase.outcome == DetermineWinner(|s.moves|, s.phase.user, s.computer))
  }

  /**
   The `Game` constructor: given a validated move list, a key and the
   computer's move index, the digest committed to is the HMAC of the
   computer's move label under the key.
   */
  function NewGame(h: Hmac, moves: seq<string>, key: Key, computer: nat): (s: Session)
    requires Validate(moves).Accepted?
    requires computer < |moves|
    ensures Invariant(h, s)
    ensures s.phase == Committed
    ensures s.moves == moves && s.key == key && s.computer == computer
  {
    Session(moves, key, computer, h(key, moves[computer]), Committed)
  }

  /** An input that ends the session: exit, or a move number in 1..n. */
  predicate Decisive(t: Token, n: nat) {
    t.Exit? || (t.Number? && 1 <= t.value <= n)
  }

  /**
   The input handler, for one chunk of input: `0` exits, `?` shows the help table, a
   number in 1..n plays move number k and reveals the key, anything else is
   reported as invalid.  Help and invalid input leave the session as it was.
   */
  function Step(s: Session, t: Token): (r: Transition)
    requires s.phase == Committed && s.computer < |s.moves|
    ensures r.next.moves == s.moves && r.next.key == s.key
    ensures r.next.computer == s.computer && r.next.hmac == s.hmac
    ensures !Decisive(t, |s.moves|) ==> r.next == s
    ensures r.next.phase == Exited <==> t == Exit
    ensures r.next.phase.Resolved? <==> t.Number? && 1 <= t.value <= |s.moves|
    ensures r.next.phase.Resolved? ==>
              r.next.phase.user == t.value - 1 &&
              r.next.phase.outcome == DetermineWinner(|s.moves|, t.value - 1, s.computer) &&
              r.reply == Reveal(s.moves[t.value - 1], s.moves[s.computer],
                                r.next.phase.outcome.Message(), s.key)
    ensures t == Exit ==> r.reply == Exiting
    ensures t == Help ==> r.reply == ShowHelp(Matrix(|s.moves|))
    ensures r.reply == Invalid <==> !Decisive(t, |s.moves|) && t != Help
  {
    match t
    case Exit => Transition(s.(phase := Exited), Exiting)
    case Help => Transition(s, ShowHelp(Matrix(|s.moves|)))
    case Number(k) =>
      if 1 <= k <= |s.moves| then
        var user := k - 1;
        var result := DetermineWinner(|s.moves|, user, s.computer);
        Transition(s.(phase := Resolved(user, result)),
                   Reveal(s.moves[user], s.moves[s.computer], result.Message(), s.key))
      else
        Transition(s, Invalid)
    case Other => Transition(s, Invalid)
  }

  /** Every step keeps the session invariant. */
  lemma StepPreservesInvariant(h: Hmac, s: Session, t: Token)
    requires Invariant(h, s) && s.phase == Committed
    ensures Invariant(h, Step(s, t).next)
  {
  }

  /**
   Fairness of the reveal: the key shown at the end recomputes the digest shown
   at the start over the computer's move; and when no two labels of the list
   collide under that key, no other move of the list verifies, so the
   committed move is pinned down.
   */
  lemma RevealVerifies(h: Hmac, s: Session, t: Token)
    requires Invariant(h, s) && s.phase == Committed
    requires Step(s, t).reply.Reveal?
    ensures Verifies(h, Step(s, t).reply.key, Step(s, t).reply.computerMove, s.hmac)
    ensures (forall a, b :: a in s.moves && b in s.moves && h(s.key, a) == h(s.key, b) ==> a == b) ==>
              forall c :: 0 <= c < |s.moves| && Verifies(h, s.key, s.moves[c], s.hmac) ==> c == s.computer
  {
  }

  /**
   The input loop: chunks are handled one by one while the session is
   committed; once it has resolved or exited, the process is gone and later
   chunks have no effect.
   */
  function Run(s: Session, tokens: seq<Token>): (r: Session)
    requires s.computer < |s.moves|
    ensures r.moves == s.moves && r.key == s.key
    ensures r.computer == s.computer && r.hmac == s.hmac
    ensures (s.phase == Committed && forall i :: 0 <= i < |tokens| ==> !Decisive(tokens[i], |s.moves|))
            ==> r == s
    decreases |tokens|
  {
    if |tokens| == 0 || s.phase != Committed then s
    else Run(Step(s, tokens[0]).next, tokens[1..])
  }

  /**
   One-shot resolution: any number of help requests and invalid inputs, then
   the first decisive input settles the session, and nothing after it counts.
   */
  lemma {:induction false} FirstDecisiveLineSettles(s: Session, prefix: seq<Token>, t: Token, rest: seq<Token>)
    requires s.phase == Committed && s.computer < |s.moves|
    requires forall i :: 0 <= i < |prefix| ==> !Decisive(prefix[i], |s.moves|)
    requires Decisive(t, |s.moves|)
    ensures Run(s, prefix + [t] + rest) == Step(s, t).next
    ensures Run(s, prefix + [t] + rest).phase != Committed
    decreases |prefix|
  {
    if |prefix| == 0 {
      assert prefix + [t] + rest == [t] + rest;
      assert ([t] + rest)[1..] == rest;
      var next := Step(s, t).next;
      assert Run(next, rest) == next;
    } else {
      var tokens := prefix + [t] + rest;
      assert tokens[0] == prefix[0];
      assert tokens[1..] == prefix[1..] + [t] + rest;
      FirstDecisiveLineSettles(s, prefix[1..], t, rest);
    }
  }

  /** Over a whole run the session invariant holds, whatever the user types. */
  lemma {:induction false} RunPreservesInvariant(h: Hmac, s: Session, tokens: seq<Token>)
    requires Invariant(h, s)
    ensures Invariant(h, Run(s, tokens))
    decreases |tokens|
  {
    if |tokens| > 0 && s.phase == Committed {
      StepPreservesInvariant(h, s, tokens[0]);
      RunPreservesInvariant(h, Step(s, tokens[0]).next, tokens[1..]);
    }
  }
}
