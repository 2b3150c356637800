/**
 The start-up check of the move list given on the command line: at least
 three moves, an odd number of them, and no move named twice.
 */
module Validation {
  import opened Rules

  /** The message printed before exiting with status 1. */
  const UsageError := "Error: Please provide an odd number (>= 3) of unique moves."

  datatype Checked = Accepted(moves: seq<string>) | Rejected(message: string)

  /** No label occurs at two positions. */
  ghost predicate Distinct(s: seq<string>) {
    forall i, j :: 0 <= i < j < |s| ==> s[i] != s[j]
  }

  /** A move list the game can be built from. */
  ghost predicate ValidMoves(s: seq<string>) {
    |s| >= 3 && |s| % 2 == 1 && Distinct(s)
  }

  /** `new Set(args)`: the labels of the list, duplicates collapsed. */
  function Labels(s: seq<string>): set<string> {
    set x | x in s
  }

  /**
   Collapsing duplicates never grows the list, and leaves its size unchanged
   exactly when no label is repeated.
   */
  lemma {:induction false} LabelsSize(s: seq<string>)
    ensures |Labels(s)| <= |s|
    ensures |Labels(s)| == |s| <==> Distinct(s)
  {
    if |s| > 0 {
      var init, last := s[..|s| - 1], s[|s| - 1];
      LabelsSize(init);
      assert s == init + [last];
      assert Labels(s) == Labels(init) + {last};
      if last in init {
        var k :| 0 <= k < |init| && init[k] == last;
        assert s[k] == s[|s| - 1];
        assert Labels(s) == Labels(init);
      } else {
        assert last !in Labels(init);
        if Distinct(init) {
          forall i, j | 0 <= i < j < |s|
            ensures s[i] != s[j]
          {
            if j == |s| - 1 {
              assert s[i] == init[i];
            } else {
              assert s[i] == init[i] && s[j] == init[j];
            }
          }
        }
        if Distinct(s) {
          forall i, j | 0 <= i < j < |init|
            ensures init[i] != init[j]
          {
            assert s[i] == init[i] && s[j] == init[j];
          }
        }
      }
    }
  }

  /**
   The check at the top level of the program: the list is accepted, unchanged,
   exactly when it is valid, and otherwise rejected with the usage message.
   */
  function Validate(args: seq<string>): (r: Checked)
    ensures r.Accepted? <==> ValidMoves(args)
    ensures r.Accepted? ==> r.moves == args
    ensures r.Rejected? ==> r.message == UsageError
  {
    LabelsSize(args);
    if |args| < 3 || |args| % 2 == 0 || |Labels(args)| != |args| then
      Rejected(UsageError)
    else
      Accepted(args)
  }

  /**
   Every list the check accepts yields a fair game: results are antisymmetric,
   and every move beats exactly `n / 2` moves and loses to exactly `n / 2`.
   */
  lemma AcceptedListIsFair(args: seq<string>, i: nat, j: nat)
    requires Validate(args).Accepted?
    requires i < |args| && j < |args|
    ensures DetermineWinner(|args|, j, i) == DetermineWinner(|args|, i, j).Opposite()
    ensures |LossesOf(|args|, i)| == Half(|args|)
    ensures |WinsOf(|args|, i)| == Half(|args|)
  {
    Antisymmetric(|args|, i, j);
    Balanced(|args|, i);
  }
}
