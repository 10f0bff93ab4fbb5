/**
 * Three-state Boolean domains, the counts the threshold propagator keeps
 * about them, and the total assignments ("completions") that a partial
 * state can still grow into.
 */
module Counting {

  /** The domain of a Boolean variable or view: undecided, or fixed to 1 or 0. */
  datatype Tri = Unknown | One | Zero

  /** Number of entries fixed to one. */
  function CountOne(s: seq<Tri>): (n: nat)
    ensures n <= |s|
  {
    if s == [] then 0 else (if s[0] == One then 1 else 0) + CountOne(s[1..])
  }

  /** Number of entries still undecided. */
  function CountUnknown(s: seq<Tri>): (n: nat)
    ensures n + CountOne(s) <= |s|
  {
    if s == [] then 0 else (if s[0] == Unknown then 1 else 0) + CountUnknown(s[1..])
  }

  /** Number of true entries of a total assignment. */
  function CountTrue(full: seq<bool>): (n: nat)
    ensures n <= |full|
  {
    if full == [] then 0 else (if full[0] then 1 else 0) + CountTrue(full[1..])
  }

  /** `full` is a total assignment that agrees with every fixed entry of `s`. */
  ghost predicate Completes(full: seq<bool>, s: seq<Tri>)
  {
    |full| == |s| &&
    forall i :: 0 <= i < |s| ==> (s[i] == One ==> full[i]) && (s[i] == Zero ==> !full[i])
  }

  lemma CompletesTail(full: seq<bool>, s: seq<Tri>)
    requires Completes(full, s) && s != []
    ensures Completes(full[1..], s[1..])
  {
    forall i | 0 <= i < |s| - 1
      ensures (s[1..][i] == One ==> full[1..][i]) && (s[1..][i] == Zero ==> !full[1..][i])
    {
      assert s[1..][i] == s[i + 1] && full[1..][i] == full[i + 1];
    }
  }

  /** The completion that sets every undecided entry to true. */
  function Optimistic(s: seq<Tri>): (full: seq<bool>)
    ensures Completes(full, s)
    ensures CountTrue(full) == CountOne(s) + CountUnknown(s)
  {
    if s == [] then []
    else
      var rest := Optimistic(s[1..]);
      var full := [s[0] != Zero] + rest;
      assert full[1..] == rest;
      full
  }

  /** The completion that sets every undecided entry to false. */
  function Pessimistic(s: seq<Tri>): (full: seq<bool>)
    ensures Completes(full, s)
    ensures CountTrue(full) == CountOne(s)
  {
    if s == [] then []
    else
      var rest := Pessimistic(s[1..]);
      var full := [s[0] == One] + rest;
      assert full[1..] == rest;
      full
  }

  /** Every completion has at least the fixed ones and at most the fixed ones plus the undecided. */
  lemma {:induction false} CompletionBounds(s: seq<Tri>, full: seq<bool>)
    requires Completes(full, s)
    ensures CountOne(s) <= CountTrue(full) <= CountOne(s) + CountUnknown(s)
  {
    if s != [] {
      CompletesTail(full, s);
      CompletionBounds(s[1..], full[1..]);
    }
  }

  /**
   * The threshold `c0` can still be reached by some completion exactly when the
   * undecided entries cover what the fixed ones still lack.
   */
  lemma ThresholdReachable(s: seq<Tri>, c0: int)
    ensures (exists full :: Completes(full, s) && CountTrue(full) >= c0)
        <==> CountUnknown(s) >= c0 - CountOne(s)
  {
    if CountUnknown(s) >= c0 - CountOne(s) {
      var full := Optimistic(s);
      assert Completes(full, s) && CountTrue(full) >= c0;
    } else {
      forall full | Completes(full, s) ensures CountTrue(full) < c0 {
        CompletionBounds(s, full);
      }
    }
  }

  /** Every completion reaches `c0` exactly when the entries fixed to one already do. */
  lemma ThresholdEntailed(s: seq<Tri>, c0: int)
    ensures (forall full :: Completes(full, s) ==> CountTrue(full) >= c0)
        <==> CountOne(s) >= c0
  {
    if CountOne(s) >= c0 {
      forall full | Completes(full, s) ensures CountTrue(full) >= c0 {
        CompletionBounds(s, full);
      }
    } else {
      var full := Pessimistic(s);
      assert Completes(full, s) && CountTrue(full) < c0;
    }
  }

  /** Fixing one undecided entry moves it from the undecided count to the ones or the zeros. */
  lemma {:induction false} CountsAfterFix(s: seq<Tri>, i: nat, one: bool)
    requires i < |s| && s[i] == Unknown
    ensures CountUnknown(s[i := if one then One else Zero]) == CountUnknown(s) - 1
    ensures CountOne(s[i := if one then One else Zero]) == CountOne(s) + (if one then 1 else 0)
  {
    var t := s[i := if one then One else Zero];
    if i == 0 {
      assert t[1..] == s[1..];
    } else {
      assert t[1..] == s[1..][i - 1 := if one then One else Zero];
      CountsAfterFix(s[1..], i - 1, one);
    }
  }

  /** A fresh state in which nothing is decided yet. */
  function AllUnknown(n: nat): (s: seq<Tri>)
    ensures |s| == n && CountUnknown(s) == n && CountOne(s) == 0
    ensures forall i :: 0 <= i < n ==> s[i] == Unknown
  {
    if n == 0 then [] else
      var s := [Unknown] + AllUnknown(n - 1);
      assert s[1..] == AllUnknown(n - 1);
      s
  }
}
