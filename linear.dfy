/**
 * Posting `b -> (a_0 * x_0 + ... + a_{n-1} * x_{n-1}  r  c)` over Boolean
 * variables (imply_linear, imply_linear2): early exits on a fixed `b`,
 * elimination of fixed variables, the rewrite of strict relations, the empty
 * sum, the overflow check, and the dispatch to the threshold propagator of
 * module Threshold, on the variables themselves for `>=` and on their
 * complements for `<=`.
 *
 * Meaning is given by completions: a total assignment `full` of the store that
 * agrees with every fixed variable (Counting.Completes).
 */
module ImplyLinear {
  import opened Wrappers
  import opened Seqs
  import opened Counting
  import opened BoolStore
  import opened Threshold

  /** Relation of a linear constraint (IntRelType); any other code is no relation. */
  datatype Rel = EQ | NQ | LQ | LE | GQ | GR | Unrecognised(code: int)

  /** `s r c` over the integers. */
  predicate Holds(s: int, r: Rel, c: int)
  {
    match r
    case EQ => s == c
    case NQ => s != c
    case LQ => s <= c
    case LE => s < c
    case GQ => s >= c
    case GR => s > c
    case Unrecognised(_) => false
  }

  /** The relations left after the rewrite of the strict ones. */
  predicate NonStrict(r: Rel)
  {
    r == EQ || r == NQ || r == LQ || r == GQ
  }

  /** A term `a * x_v` on store variable `v`. */
  datatype Term = Term(a: int, v: nat)

  /** The range of integers the engine accepts (Int::Limits); its bounds are a parameter. */
  datatype Limits = Limits(min: int, max: int)

  /** Limits::check succeeds. */
  predicate InLimits(lim: Limits, n: int)
  {
    lim.min <= n <= lim.max
  }

  /** The exceptions the post functions throw. */
  datatype Error = ArgumentSizeMismatch | OutOfLimits | UnknownRelation | WrongRelation | NonUnary

  /** What posting did. */
  datatype Outcome =
    | Thrown(e: Error)
      /** Returned without any effect. */
    | Ignored
      /** `b` is one: handed to the plain (non-reified) linear post with the terms as given. */
    | PlainPost(t: seq<Term>, r: Rel, c: int)
      /** No terms left and `0 r c` false: `b` fixed to zero. */
    | ForcedZero
      /** RImpGqBoolInt::post called on these views with this threshold. */
    | Posted(x: seq<View>, c: int)

  /** Every term refers to a variable of the store. */
  predicate TermsInStore(ts: seq<Term>, dom: seq<Tri>)
  {
    forall t :: t in ts ==> t.v < |dom|
  }

  /** The value of a term under a total assignment. */
  function TermValue(full: seq<bool>): Term -> int
  {
    (t: Term) => if t.v < |full| && full[t.v] then t.a else 0
  }

  /** The value of the linear sum under a total assignment. */
  function LinSum(ts: seq<Term>, full: seq<bool>): int
  {
    SumOf(ts, TermValue(full))
  }

  /** The constraint `sum(ts) r c` holds under a total assignment. */
  predicate LinHolds(ts: seq<Term>, full: seq<bool>, r: Rel, c: int)
  {
    Holds(LinSum(ts, full), r, c)
  }

  /** The coefficient of a term fixed to one in `dom`, else 0. */
  function FixedOne(dom: seq<Tri>): Term -> int
  {
    (t: Term) => if t.v < |dom| && dom[t.v] == One then t.a else 0
  }

  /** The sum the terms whose variable is fixed to one contribute in every completion. */
  function FixedWeight(ts: seq<Term>, dom: seq<Tri>): int
  {
    SumOf(ts, FixedOne(dom))
  }

  /** The variable of a term is still undecided in `dom`. */
  function Undecided(dom: seq<Tri>): Term -> bool
  {
    (t: Term) => t.v < |dom| && dom[t.v] == Unknown
  }

  /** The terms on undecided variables, in their order. */
  function UnassignedTerms(ts: seq<Term>, dom: seq<Tri>): seq<Term>
  {
    Filter(ts, Undecided(dom))
  }

  /**
   * Under every completion the linear sum is the weight of the terms fixed to one
   * plus the sum over the undecided terms.
   */
  lemma {:induction false} SplitFixedTerms(ts: seq<Term>, dom: seq<Tri>, full: seq<bool>)
    requires TermsInStore(ts, dom) && Completes(full, dom)
    ensures LinSum(ts, full) == FixedWeight(ts, dom) + LinSum(UnassignedTerms(ts, dom), full)
  {
    if ts != [] {
      var t := ts[0];
      assert t in ts;
      SplitFixedTerms(ts[1..], dom, full);
      var u := UnassignedTerms(ts[1..], dom);
      if Undecided(dom)(t) {
        assert UnassignedTerms(ts, dom) == [t] + u;
        assert ([t] + u)[1..] == u;
      } else {
        assert UnassignedTerms(ts, dom) == u;
      }
    }
  }

  /** One step of the backward elimination scan, stated on the suffix starting at `i`. */
  lemma EliminateSuffix(orig: seq<Term>, dom: seq<Tri>, i: nat)
    requires i < |orig|
    ensures UnassignedTerms(orig[i..], dom) ==
      (if Undecided(dom)(orig[i]) then [orig[i]] else []) + UnassignedTerms(orig[i + 1..], dom)
    ensures FixedWeight(orig[i..], dom) == FixedOne(dom)(orig[i]) + FixedWeight(orig[i + 1..], dom)
  {
    assert orig[i..][0] == orig[i] && orig[i..][1..] == orig[i + 1..];
  }

  /**
   * The elimination loop keeps its invariant over one step: the undecided terms
   * of the scanned suffix `orig[i..]` are the live part `after[i..n2]`, and the
   * weight of its terms fixed to one has been taken off `d2`.
   */
  lemma EliminateStep(before: seq<Term>, after: seq<Term>, orig: seq<Term>, dom: seq<Tri>, c: int,
                      i: nat, n: nat, n2: nat, d: int, d2: int, state: Tri)
    requires TermsInStore(orig, dom) && i < n <= |orig| <= |before|
    requires forall j :: 0 <= j <= i ==> before[j] == orig[j]
    requires multiset(before[i + 1..n]) == multiset(UnassignedTerms(orig[i + 1..], dom))
    requires d == c - FixedWeight(orig[i + 1..], dom)
    requires orig[i].v < |dom| && state == dom[orig[i].v]
    requires after == (if state == Unknown then before else before[i := before[n - 1]])
    requires n2 == (if state == Unknown then n else n - 1)
    requires d2 == (if state == One then d - orig[i].a else d)
    ensures forall j :: 0 <= j < i ==> after[j] == orig[j]
    ensures multiset(after[i..n2]) == multiset(UnassignedTerms(orig[i..], dom))
    ensures d2 == c - FixedWeight(orig[i..], dom)
  {
    EliminateSuffix(orig, dom, i);
    DropStep(before, after, orig[i], UnassignedTerms(orig[i..], dom), UnassignedTerms(orig[i + 1..], dom),
             i, n, n2, state == Unknown);
  }

  /**
   * One step of the elimination loop on the term at `i`, whose variable is in
   * `state`: a fixed term is overwritten by the last live one and the live
   * prefix shrinks; a term fixed to one also takes its coefficient off `d`.
   */
  method EliminateAt(t: array<Term>, i: nat, m: nat, d: int, state: Tri) returns (m2: nat, d2: int)
    requires i < m <= t.Length
    modifies t
    ensures t[..] == (if state == Unknown then old(t[..]) else old(t[..])[i := old(t[..])[m - 1]])
    ensures m2 == (if state == Unknown then m else m - 1)
    ensures d2 == (if state == One then d - old(t[..])[i].a else d)
  {
    m2, d2 := m, d;
    if state == One {
      d2 := d - t[i].a;
      t[i] := t[m - 1];
      m2 := m - 1;
    } else if state == Zero {
      t[i] := t[m - 1];
      m2 := m - 1;
    }
  }

  /**
   * The elimination loop of imply_linear2: move every term on a fixed variable
   * out of the live prefix `t[..m]` by overwriting it with the last live term,
   * subtracting its coefficient from the right-hand side when the variable is one.
   */
  method EliminateAssigned(t: array<Term>, n: nat, dom: seq<Tri>, c: int) returns (m: nat, d: int)
    requires n <= t.Length && TermsInStore(t[..n], dom)
    modifies t
    ensures m <= n
    ensures multiset(t[..m]) == multiset(UnassignedTerms(old(t[..n]), dom))
    ensures d == c - FixedWeight(old(t[..n]), dom)
  {
    ghost var orig := t[..n];
    ghost var cur := t[..];
    m := n;
    d := c;
    var i := n;
    while i > 0
      invariant 0 <= i <= m <= n
      invariant t[..] == cur
      invariant forall j :: 0 <= j < i ==> cur[j] == orig[j]
      invariant multiset(cur[i..m]) == multiset(UnassignedTerms(orig[i..], dom))
      invariant d == c - FixedWeight(orig[i..], dom)
    {
      i := i - 1;
      var ti := t[i];
      assert ti == cur[i] == orig[i] && ti in orig;
      ghost var oldM, oldD := m, d;
      var state := dom[ti.v];
      m, d := EliminateAt(t, i, m, d, state);
      ghost var next := if state == Unknown then cur else cur[i := cur[oldM - 1]];
      EliminateStep(cur, next, orig, dom, c, i, oldM, m, oldD, d, state);
      cur := next;
    }
    assert orig[0..] == orig;
  }

  /** A rearrangement of the undecided terms holds terms on undecided variables only. */
  lemma RemainingUndecided(rem: seq<Term>, orig: seq<Term>, dom: seq<Tri>)
    requires multiset(rem) == multiset(UnassignedTerms(orig, dom))
    ensures forall t :: t in rem ==> t.v < |dom| && dom[t.v] == Unknown
  {
    forall t | t in rem ensures t.v < |dom| && dom[t.v] == Unknown {
      assert t in multiset(rem);
      assert Undecided(dom)(t);
    }
  }

  /**
   * The rewrite of non-strict relations: `<` becomes `<=` with `d - 1`, `>`
   * becomes `>=` with `d + 1`, the others stay; any other code throws.
   */
  function Canonical(r: Rel, d: int): (res: Result<(Rel, int), Error>)
    ensures res.Failure? <==> r.Unrecognised?
    ensures res.Failure? ==> res.error == UnknownRelation
    ensures res.Success? ==> NonStrict(res.value.0)
    ensures res.Success? ==> forall s :: Holds(s, r, d) <==> Holds(s, res.value.0, res.value.1)
  {
    match r
    case EQ => Success((EQ, d))
    case NQ => Success((NQ, d))
    case LQ => Success((LQ, d))
    case GQ => Success((GQ, d))
    case LE => Success((LQ, d - 1))
    case GR => Success((GQ, d + 1))
    case Unrecognised(_) => Failure(UnknownRelation)
  }

  /** The empty-sum test: whether `0 r c` is violated, for a non-strict `r`. */
  function EmptySumFails(r: Rel, c: int): (fail: bool)
    requires NonStrict(r)
    ensures fail <==> !Holds(0, r, c)
  {
    match r
    case EQ => 0 != c
    case NQ => 0 == c
    case GQ => 0 < c
    case LQ => 0 > c
  }

  /**
   * The normalised terms: `pos` the terms with a positive coefficient, `neg` the
   * terms with a negative one with the coefficient made positive, `unit` whether
   * all normalised coefficients are one.
   */
  datatype Normal = Normal(pos: seq<Term>, neg: seq<Term>, unit: bool)

  /**
   * Linear::normalize: drop zero coefficients, split the rest by sign, make the
   * negative ones positive, and tell whether every coefficient was 1 or -1.
   */
  function Normalize(ts: seq<Term>): (nz: Normal)
    ensures forall t :: t in nz.pos ==> t in ts && t.a > 0
    ensures forall t :: t in nz.neg ==> Term(-t.a, t.v) in ts && t.a > 0
    ensures |nz.pos| + |nz.neg| <= |ts|
    ensures nz.unit <==> forall t :: t in ts ==> -1 <= t.a <= 1
  {
    if ts == [] then Normal([], [], true)
    else
      var rest := Normalize(ts[1..]);
      var t := ts[0];
      assert forall u :: u in ts <==> u == t || u in ts[1..];
      if t.a > 0 then Normal([t] + rest.pos, rest.neg, rest.unit && t.a == 1)
      else if t.a < 0 then Normal(rest.pos, [Term(-t.a, t.v)] + rest.neg, rest.unit && t.a == -1)
      else rest
  }

  /** Normalising keeps the value of the sum: the positive part minus the (made positive) negative part. */
  lemma {:induction false} NormalizeSum(ts: seq<Term>, full: seq<bool>)
    ensures LinSum(ts, full) == LinSum(Normalize(ts).pos, full) - LinSum(Normalize(ts).neg, full)
  {
    if ts != [] {
      NormalizeSum(ts[1..], full);
      var rest := Normalize(ts[1..]);
      var t := ts[0];
      if t.a > 0 {
        assert ([t] + rest.pos)[1..] == rest.pos;
      } else if t.a < 0 {
        assert ([Term(-t.a, t.v)] + rest.neg)[1..] == rest.neg;
      }
    }
  }

  /** The coefficient of a term. */
  function Coefficient(t: Term): int
  {
    t.a
  }

  /** The sum of the coefficients. */
  function CoeffSum(ts: seq<Term>): int
  {
    SumOf(ts, Coefficient)
  }

  /** With positive coefficients, the sum lies between 0 and the sum of the coefficients. */
  lemma {:induction false} PositiveSumBounds(ts: seq<Term>, full: seq<bool>)
    requires forall t :: t in ts ==> t.a > 0
    ensures 0 <= LinSum(ts, full) <= CoeffSum(ts)
  {
    if ts != [] {
      assert ts[0] in ts;
      assert forall t :: t in ts[1..] ==> t in ts;
      PositiveSumBounds(ts[1..], full);
    }
  }

  /**
   * The overflow check's two sums: `sl = c + sum(neg.a)` and `su = c - sum(pos.a)`,
   * each accumulated by its own loop.
   */
  method OverflowBounds(pos: seq<Term>, neg: seq<Term>, c: int) returns (sl: int, su: int)
    ensures sl == c + CoeffSum(neg) && su == c - CoeffSum(pos)
  {
    sl := c;
    su := c;
    var i := |pos|;
    while i > 0
      invariant 0 <= i <= |pos|
      invariant su == c - CoeffSum(pos[i..])
    {
      i := i - 1;
      assert pos[i..][1..] == pos[i + 1..];
      su := su - pos[i].a;
    }
    assert pos[0..] == pos;
    i := |neg|;
    while i > 0
      invariant 0 <= i <= |neg|
      invariant sl == c + CoeffSum(neg[i..])
    {
      i := i - 1;
      assert neg[i..][1..] == neg[i + 1..];
      sl := sl + neg[i].a;
    }
    assert neg[0..] == neg;
  }

  /**
   * Both bounds of the overflow check within the limits keep `c - sum(a * x)` within
   * the limits under every assignment, once the terms are normalised.
   */
  lemma SlackWithinBounds(nz: Normal, c: int, full: seq<bool>)
    requires forall t :: t in nz.pos ==> t.a > 0
    requires forall t :: t in nz.neg ==> t.a > 0
    ensures c - CoeffSum(nz.pos) <= c - (LinSum(nz.pos, full) - LinSum(nz.neg, full)) <= c + CoeffSum(nz.neg)
  {
    PositiveSumBounds(nz.pos, full);
    PositiveSumBounds(nz.neg, full);
  }

  /** The view on the variable of a term. */
  function PosOf(t: Term): View
  {
    Pos(t.v)
  }

  /** The complement view on the variable of a term. */
  function NegOf(t: Term): View
  {
    Neg(t.v)
  }

  /** With unit coefficients the linear sum counts the true variables. */
  lemma {:induction false} UnitSumCounts(ts: seq<Term>, full: seq<bool>)
    requires forall t :: t in ts ==> t.a == 1
    ensures LinSum(ts, full) == TrueViews(Map(ts, PosOf), full)
  {
    if ts != [] {
      assert ts[0] in ts;
      assert forall t :: t in ts[1..] ==> t in ts;
      UnitSumCounts(ts[1..], full);
      assert Map(ts, PosOf)[1..] == Map(ts[1..], PosOf);
    }
  }

  /** The complements of `n` variables: as many true as the variables have false. */
  lemma {:induction false} ComplementCount(ts: seq<Term>, full: seq<bool>)
    requires forall t :: t in ts ==> t.v < |full|
    ensures TrueViews(Map(ts, NegOf), full) == |ts| - TrueViews(Map(ts, PosOf), full)
  {
    if ts != [] {
      assert ts[0] in ts;
      assert forall t :: t in ts[1..] ==> t in ts;
      ComplementCount(ts[1..], full);
      assert Map(ts, PosOf)[1..] == Map(ts[1..], PosOf);
      assert Map(ts, NegOf)[1..] == Map(ts[1..], NegOf);
    }
  }

  /**
   * `sum(x) <= c` over `n` unit terms is `#(not x) >= n - c`: the rewrite that posts
   * a `<=` constraint as a threshold on the complements.
   */
  lemma ComplementRewrite(ts: seq<Term>, full: seq<bool>, c: int)
    requires forall t :: t in ts ==> t.a == 1 && t.v < |full|
    ensures LinSum(ts, full) <= c <==> TrueViews(Map(ts, NegOf), full) >= |ts| - c
  {
    UnitSumCounts(ts, full);
    ComplementCount(ts, full);
  }

  /**
   * The outcome of imply_linear2 on the terms `orig` with `b` the control variable,
   * when elimination leaves the terms `rem` (the undecided terms of `orig` in the
   * order the elimination loop leaves them).
   */
  function Plan(lim: Limits, dom: seq<Tri>, b: nat, orig: seq<Term>, r: Rel, c: int, rem: seq<Term>): (out: Outcome)
    requires b < |dom|
    ensures dom[b] == One ==> out == PlainPost(orig, r, c)
    ensures dom[b] == Zero ==> out == Ignored
    ensures dom[b] == Unknown && !InLimits(lim, c) ==> out == Thrown(OutOfLimits)
  {
    if dom[b] == One then PlainPost(orig, r, c)
    else if dom[b] == Zero then Ignored
    else if !InLimits(lim, c) then Thrown(OutOfLimits)
    else PlanEliminated(lim, r, c - FixedWeight(orig, dom), rem)
  }

  /** The outcome once the fixed terms are gone and `d` is the right-hand side left. */
  function PlanEliminated(lim: Limits, r: Rel, d: int, rem: seq<Term>): (out: Outcome)
    ensures r.Unrecognised? && InLimits(lim, d) ==> out == Thrown(UnknownRelation)
  {
    if !InLimits(lim, d) then Thrown(OutOfLimits)
    else match Canonical(r, d)
      case Failure(e) => Thrown(e)
      case Success(rc) => PlanNormal(lim, rc.0, rc.1, Normalize(rem))
  }

  /** The outcome for the non-strict relation `r` with right-hand side `c` over the normalised terms. */
  function PlanNormal(lim: Limits, r: Rel, c: int, nz: Normal): (out: Outcome)
    requires NonStrict(r)
    ensures out.Posted? ==> |out.x| == |nz.pos| && r in {GQ, LQ} && nz.unit && nz.neg == []
    ensures out == ForcedZero || out == Ignored ==> nz.pos == [] && nz.neg == []
  {
    if |nz.pos| + |nz.neg| == 0 then
      if EmptySumFails(r, c) then ForcedZero else Ignored
    else if !InLimits(lim, c + CoeffSum(nz.neg)) || !InLimits(lim, c - CoeffSum(nz.pos)) then
      Thrown(OutOfLimits)
    else if !(nz.unit && |nz.neg| == 0) then Thrown(NonUnary)
    else PlanUnit(r, c, nz.pos)
  }

  /**
   * The outcome over unit terms `pos`: `>=` posts on the variables with `c`,
   * `<=` on their complements with `|pos| - c`, and the other relations throw.
   */
  function PlanUnit(r: Rel, c: int, pos: seq<Term>): (out: Outcome)
    ensures out.Posted? ==> |out.x| == |pos| && r in {GQ, LQ}
    ensures !out.Posted? ==> out == Thrown(WrongRelation)
  {
    if r == GQ then Posted(Map(pos, PosOf), c)
    else if r == LQ then Posted(Map(pos, NegOf), |pos| - c)
    else Thrown(WrongRelation)
  }

  /**
   * Dropping the fixed terms keeps the meaning of `sum(orig) r c` under every
   * completion, once the weight of the terms fixed to one is taken off `c`.
   */
  lemma EliminatedMeaning(dom: seq<Tri>, orig: seq<Term>, r: Rel, c: int, rem: seq<Term>, full: seq<bool>)
    requires TermsInStore(orig, dom) && Completes(full, dom)
    requires multiset(rem) == multiset(UnassignedTerms(orig, dom))
    ensures LinHolds(orig, full, r, c) <==> Holds(LinSum(rem, full), r, c - FixedWeight(orig, dom))
  {
    SplitFixedTerms(orig, dom, full);
    SumOfPerm(rem, UnassignedTerms(orig, dom), TermValue(full));
  }

  /**
   * A threshold on views that matches `sum(rem) r d` on the undecided terms under
   * every completion matches the whole constraint `sum(orig) r c`.
   */
  lemma TransferThreshold(dom: seq<Tri>, orig: seq<Term>, r: Rel, c: int, rem: seq<Term>, x: seq<View>, k: int)
    requires TermsInStore(orig, dom)
    requires multiset(rem) == multiset(UnassignedTerms(orig, dom))
    requires forall full :: Completes(full, dom) ==>
      (TrueViews(x, full) >= k <==> Holds(LinSum(rem, full), r, c - FixedWeight(orig, dom)))
    ensures forall full :: Completes(full, dom) ==> (TrueViews(x, full) >= k <==> LinHolds(orig, full, r, c))
  {
    forall full | Completes(full, dom) ensures TrueViews(x, full) >= k <==> LinHolds(orig, full, r, c) {
      EliminatedMeaning(dom, orig, r, c, rem, full);
    }
  }

  /**
   * A fact that holds exactly when `sum(rem) r d` does under every completion
   * holds exactly when the whole constraint `sum(orig) r c` does.
   */
  lemma TransferFlag(dom: seq<Tri>, orig: seq<Term>, r: Rel, c: int, rem: seq<Term>, flag: bool)
    requires TermsInStore(orig, dom)
    requires multiset(rem) == multiset(UnassignedTerms(orig, dom))
    requires forall full :: Completes(full, dom) ==> (Holds(LinSum(rem, full), r, c - FixedWeight(orig, dom)) <==> flag)
    ensures forall full :: Completes(full, dom) ==> (LinHolds(orig, full, r, c) <==> flag)
  {
    forall full | Completes(full, dom) ensures LinHolds(orig, full, r, c) <==> flag {
      EliminatedMeaning(dom, orig, r, c, rem, full);
    }
  }

  /**
   * Over the terms `ts`, with `r` non-strict, the outcome keeps the meaning of
   * `sum(ts) r c` under every total assignment: `b` forced to zero only when it
   * fails, nothing done only when it holds, and a posted threshold holding exactly
   * when it does.
   */
  lemma NormalMeaning(lim: Limits, r: Rel, c: int, ts: seq<Term>, full: seq<bool>)
    requires NonStrict(r) && forall t :: t in ts ==> t.v < |full|
    ensures PlanNormal(lim, r, c, Normalize(ts)) == ForcedZero ==> !Holds(LinSum(ts, full), r, c)
    ensures PlanNormal(lim, r, c, Normalize(ts)) == Ignored ==> Holds(LinSum(ts, full), r, c)
    ensures PlanNormal(lim, r, c, Normalize(ts)).Posted? ==>
      (Holds(LinSum(ts, full), r, c) <==>
       TrueViews(PlanNormal(lim, r, c, Normalize(ts)).x, full) >= PlanNormal(lim, r, c, Normalize(ts)).c)
  {
    var nz := Normalize(ts);
    NormalizeSum(ts, full);
    if PlanNormal(lim, r, c, nz).Posted? {
      assert forall t :: t in nz.pos ==> t.a == 1 && t.v < |full|;
      UnitSumCounts(nz.pos, full);
      if r == LQ {
        ComplementRewrite(nz.pos, full, c);
      }
    }
  }

  /**
   * With `b` undecided, every outcome of the plan keeps the meaning of
   * `b -> (sum(a * x) r c)` under every completion of the store: `b` is forced to
   * zero only when the constraint fails, nothing is done only when it holds, and
   * the threshold posted holds exactly when the constraint does.
   */
  lemma PlanSound(lim: Limits, dom: seq<Tri>, b: nat, orig: seq<Term>, r: Rel, c: int, rem: seq<Term>,
                  full: seq<bool>)
    requires b < |dom| && dom[b] == Unknown && TermsInStore(orig, dom) && Completes(full, dom)
    requires multiset(rem) == multiset(UnassignedTerms(orig, dom))
    ensures Plan(lim, dom, b, orig, r, c, rem) == ForcedZero ==> !LinHolds(orig, full, r, c)
    ensures Plan(lim, dom, b, orig, r, c, rem) == Ignored ==> LinHolds(orig, full, r, c)
    ensures Plan(lim, dom, b, orig, r, c, rem).Posted? ==>
      (LinHolds(orig, full, r, c) <==>
       TrueViews(Plan(lim, dom, b, orig, r, c, rem).x, full) >= Plan(lim, dom, b, orig, r, c, rem).c)
  {
    if InLimits(lim, c) {
      PlanStages(lim, dom, b, orig, r, c, rem);
      EliminatedMeaning(dom, orig, r, c, rem, full);
      RemainingUndecided(rem, orig, dom);
      EliminatedSound(lim, r, c - FixedWeight(orig, dom), rem, full);
    }
  }

  /** PlanSound once the fixed terms are gone: the outcome agrees with `rem` against `d`. */
  lemma EliminatedSound(lim: Limits, r: Rel, d: int, rem: seq<Term>, full: seq<bool>)
    requires forall t :: t in rem ==> t.v < |full|
    ensures PlanEliminated(lim, r, d, rem) == ForcedZero ==> !Holds(LinSum(rem, full), r, d)
    ensures PlanEliminated(lim, r, d, rem) == Ignored ==> Holds(LinSum(rem, full), r, d)
    ensures PlanEliminated(lim, r, d, rem).Posted? ==>
      (Holds(LinSum(rem, full), r, d) <==>
       TrueViews(PlanEliminated(lim, r, d, rem).x, full) >= PlanEliminated(lim, r, d, rem).c)
  {
    if InLimits(lim, d) && !r.Unrecognised? {
      EliminatedStage(lim, r, d, rem);
      var rc := Canonical(r, d).value;
      NormalMeaning(lim, rc.0, rc.1, rem, full);
    }
  }

  /** The views and complement views on undecided variables are on undecided variables. */
  lemma MappedUndecided(ts: seq<Term>, dom: seq<Tri>)
    requires forall t :: t in ts ==> t.v < |dom| && dom[t.v] == Unknown
    ensures forall y :: y in Map(ts, PosOf) ==> y.v < |dom| && dom[y.v] == Unknown
    ensures forall y :: y in Map(ts, NegOf) ==> y.v < |dom| && dom[y.v] == Unknown
  {
    forall y | y in Map(ts, PosOf) ensures y.v < |dom| && dom[y.v] == Unknown {
      var i :| 0 <= i < |ts| && Map(ts, PosOf)[i] == y;
      assert ts[i] in ts;
    }
    forall y | y in Map(ts, NegOf) ensures y.v < |dom| && dom[y.v] == Unknown {
      var i :| 0 <= i < |ts| && Map(ts, NegOf)[i] == y;
      assert ts[i] in ts;
    }
  }

  /**
   * What posting may do to the store and what it may create: `b` becomes zero
   * exactly on the forced-zero outcome and possibly when a threshold is posted
   * (the threshold is already out of reach), nothing else in the store changes,
   * and a propagator exists only for a posted threshold, on `b`, consistent and
   * with its counters matching the store.
   */
  ghost predicate Effect(dom0: seq<Tri>, dom: seq<Tri>, b: nat, out: Outcome, p: RImpGqBoolInt?)
    reads p
    requires b < |dom0|
  {
    |dom| == |dom0| &&
    (!out.Posted? ==> p == null) &&
    (!out.Posted? && out != ForcedZero ==> dom == dom0) &&
    (out == ForcedZero ==> dom == dom0[b := Zero]) &&
    (out.Posted? ==> dom == dom0 || dom == dom0[b := Zero]) &&
    (p != null ==> p.b == b && p.Valid() && p.Advised(dom) && dom == dom0)
  }

  /** With `b` undecided and `c` within the limits, the plan goes on past the early exits. */
  lemma PlanStages(lim: Limits, dom: seq<Tri>, b: nat, orig: seq<Term>, r: Rel, c: int, rem: seq<Term>)
    requires b < |dom| && dom[b] == Unknown && InLimits(lim, c)
    ensures Plan(lim, dom, b, orig, r, c, rem) == PlanEliminated(lim, r, c - FixedWeight(orig, dom), rem)
  {
  }

  /** Past the limit check on `d` and the relation rewrite, the plan works on the normalised terms. */
  lemma EliminatedStage(lim: Limits, r: Rel, d: int, rem: seq<Term>)
    requires InLimits(lim, d) && Canonical(r, d).Success?
    ensures PlanEliminated(lim, r, d, rem) ==
      PlanNormal(lim, Canonical(r, d).value.0, Canonical(r, d).value.1, Normalize(rem))
  {
  }

  /**
   * The dispatch of imply_linear2 on unit terms: build the views (the variables
   * for `>=`, their complements for `<=`) and post the threshold propagator.
   */
  method PostUnit(home: Space, b: nat, r: Rel, c: int, pos: seq<Term>)
    returns (out: Outcome, p: RImpGqBoolInt?)
    requires b < |home.dom| && home.dom[b] == Unknown
    requires forall t :: t in pos ==> t.v < |home.dom| && home.dom[t.v] == Unknown
    modifies home`dom
    ensures |home.dom| == |old(home.dom)|
    ensures out == PlanUnit(r, c, pos)
    ensures Effect(old(home.dom), home.dom, b, out, p) && (p != null ==> fresh(p))
    ensures p != null ==>
      forall full :: Completes(full, old(home.dom)) ==>
        (TrueViews(p.x, full) >= p.c <==> TrueViews(out.x, full) >= out.c)
    ensures out.Posted? && p == null ==>
      forall full :: Completes(full, old(home.dom)) ==>
        (TrueViews(out.x, full) >= out.c <==> home.dom[b] == Unknown)
  {
    p := null;
    var views: array<View>;
    var threshold: int;
    if r == GQ {
      views := new View[|pos|](i requires 0 <= i < |pos| => Pos(pos[i].v));
      threshold := c;
    } else if r == LQ {
      views := new View[|pos|](i requires 0 <= i < |pos| => Neg(pos[i].v));
      threshold := |pos| - c;
    } else {
      out := Thrown(WrongRelation);
      return;
    }
    out := Posted(views[..], threshold);
    assert views[..] == PlanUnit(r, c, pos).x;
    MappedUndecided(pos, home.dom);
    p := RImpGqBoolInt.Post(home, b, views, threshold);
  }

  /**
   * The second half of imply_linear2, once the terms are normalised: settle the
   * empty sum, check the overflow bounds, and post the threshold propagator for
   * `>=` on the variables and for `<=` on their complements.
   */
  method Dispatch(home: Space, lim: Limits, b: nat, r: Rel, c: int, nz: Normal)
    returns (out: Outcome, p: RImpGqBoolInt?)
    requires b < |home.dom| && home.dom[b] == Unknown && NonStrict(r)
    requires forall t :: t in nz.pos ==> t.v < |home.dom| && home.dom[t.v] == Unknown
    modifies home`dom
    ensures |home.dom| == |old(home.dom)|
    ensures out == PlanNormal(lim, r, c, nz)
    ensures Effect(old(home.dom), home.dom, b, out, p) && (p != null ==> fresh(p))
    ensures p != null ==>
      forall full :: Completes(full, old(home.dom)) ==>
        (TrueViews(p.x, full) >= p.c <==> TrueViews(out.x, full) >= out.c)
    ensures out.Posted? && p == null ==>
      forall full :: Completes(full, old(home.dom)) ==>
        (TrueViews(out.x, full) >= out.c <==> home.dom[b] == Unknown)
  {
    p := null;
    if |nz.pos| + |nz.neg| == 0 {
      if EmptySumFails(r, c) {
        home.ZeroNone(b);
        out := ForcedZero;
      } else {
        out := Ignored;
      }
      return;
    }
    var sl, su := OverflowBounds(nz.pos, nz.neg, c);
    if !InLimits(lim, sl) || !InLimits(lim, su) {
      out := Thrown(OutOfLimits);
      return;
    }
    if !(nz.unit && |nz.neg| == 0) {
      out := Thrown(NonUnary);
      return;
    }
    out, p := PostUnit(home, b, r, c, nz.pos);
  }

  /**
   * The part of imply_linear2 after the elimination: check the limits of the
   * adjusted constant, rewrite the relation, normalise the remaining terms and
   * dispatch. Under every completion, the outcome keeps the meaning of
   * `b -> (sum(ts) r d)`.
   */
  method PostEliminated(home: Space, lim: Limits, b: nat, ts: seq<Term>, r: Rel, d: int)
    returns (out: Outcome, p: RImpGqBoolInt?)
    requires b < |home.dom| && home.dom[b] == Unknown
    requires forall t :: t in ts ==> t.v < |home.dom| && home.dom[t.v] == Unknown
    modifies home`dom
    ensures |home.dom| == |old(home.dom)|
    ensures out == PlanEliminated(lim, r, d, ts)
    ensures Effect(old(home.dom), home.dom, b, out, p) && (p != null ==> fresh(p))
    ensures p != null ==>
      forall full :: Completes(full, old(home.dom)) ==>
        (TrueViews(p.x, full) >= p.c <==> Holds(LinSum(ts, full), r, d))
    ensures !out.Thrown? && p == null ==>
      forall full :: Completes(full, old(home.dom)) ==>
        (Holds(LinSum(ts, full), r, d) <==> home.dom[b] == Unknown)
  {
    ghost var dom0 := home.dom;
    p := null;
    if !InLimits(lim, d) {
      out := Thrown(OutOfLimits);
      return;
    }
    var canon := Canonical(r, d);
    if canon.Failure? {
      out := Thrown(canon.error);
      return;
    }
    var (r1, c1) := canon.value;
    var nz := Normalize(ts);
    EliminatedStage(lim, r, d, ts);
    out, p := Dispatch(home, lim, b, r1, c1, nz);
    forall full | Completes(full, dom0)
      ensures out == ForcedZero ==> !Holds(LinSum(ts, full), r, d)
      ensures out == Ignored ==> Holds(LinSum(ts, full), r, d)
      ensures out.Posted? ==> (Holds(LinSum(ts, full), r, d) <==> TrueViews(out.x, full) >= out.c)
    {
      assert forall t :: t in ts ==> t.v < |full|;
      NormalMeaning(lim, r1, c1, ts, full);
    }
  }

  /**
   * The part of imply_linear2 that runs with `b` undecided: eliminate the fixed
   * terms, then post on the undecided ones with the adjusted constant.
   */
  method EliminateAndPost(home: Space, lim: Limits, b: nat, t: array<Term>, n: nat, r: Rel, c: int)
    returns (out: Outcome, p: RImpGqBoolInt?, d: int, ghost rem: seq<Term>)
    requires b < |home.dom| && home.dom[b] == Unknown
    requires n <= t.Length && TermsInStore(t[..n], home.dom)
    modifies home`dom, t
    ensures |home.dom| == |old(home.dom)|
    ensures multiset(rem) == multiset(UnassignedTerms(old(t[..n]), old(home.dom)))
    ensures d == c - FixedWeight(old(t[..n]), old(home.dom))
    ensures out == PlanEliminated(lim, r, d, rem)
    ensures Effect(old(home.dom), home.dom, b, out, p) && (p != null ==> fresh(p))
    ensures p != null ==>
      forall full :: Completes(full, old(home.dom)) ==>
        (TrueViews(p.x, full) >= p.c <==> LinHolds(old(t[..n]), full, r, c))
    ensures !out.Thrown? && p == null ==>
      forall full :: Completes(full, old(home.dom)) ==>
        (LinHolds(old(t[..n]), full, r, c) <==> home.dom[b] == Unknown)
  {
    ghost var orig := t[..n];
    ghost var dom0 := home.dom;
    var m;
    m, d := EliminateAssigned(t, n, home.dom, c);
    rem := t[..m];
    RemainingUndecided(rem, orig, dom0);
    out, p := PostEliminated(home, lim, b, t[..m], r, d);
    if p != null {
      TransferThreshold(dom0, orig, r, c, rem, p.x, p.c);
    } else if !out.Thrown? {
      TransferFlag(dom0, orig, r, c, rem, home.dom[b] == Unknown);
    }
  }

  /**
   * imply_linear2: post `b -> (sum(t[..n]) r c)`. The outcome is the plan's, with
   * `rem` the undecided terms as the elimination loop leaves them. When `b` is
   * undecided the store changes only by `b` becoming zero, and only where the
   * constraint fails under every completion; a propagator is created only on a
   * threshold that holds exactly when the constraint does.
   */
  method ImplyLinear2(home: Space, lim: Limits, b: nat, t: array<Term>, n: nat, r: Rel, c: int)
    returns (out: Outcome, p: RImpGqBoolInt?, ghost rem: seq<Term>)
    requires b < |home.dom| && n <= t.Length && TermsInStore(t[..n], home.dom)
    modifies home`dom, t
    ensures |home.dom| == |old(home.dom)|
    ensures old(home.dom[b]) == Unknown && InLimits(lim, c) ==>
      multiset(rem) == multiset(UnassignedTerms(old(t[..n]), old(home.dom)))
    ensures out == Plan(lim, old(home.dom), b, old(t[..n]), r, c, rem)
    ensures Effect(old(home.dom), home.dom, b, out, p) && (p != null ==> fresh(p))
    ensures p != null ==>
      forall full :: Completes(full, old(home.dom)) ==>
        (TrueViews(p.x, full) >= p.c <==> LinHolds(old(t[..n]), full, r, c))
    ensures old(home.dom[b]) == Unknown && !out.Thrown? && p == null ==>
      forall full :: Completes(full, old(home.dom)) ==>
        (LinHolds(old(t[..n]), full, r, c) <==> home.dom[b] == Unknown)
  {
    ghost var orig := t[..n];
    ghost var dom0 := home.dom;
    rem := [];
    p := null;
    if home.dom[b] == One {
      out := PlainPost(t[..n], r, c);
      return;
    }
    if home.dom[b] == Zero {
      out := Ignored;
      return;
    }
    if !InLimits(lim, c) {
      out := Thrown(OutOfLimits);
      return;
    }
    var d;
    out, p, d, rem := EliminateAndPost(home, lim, b, t, n, r, c);
    PlanStages(lim, dom0, b, orig, r, c, rem);
  }

  /** The terms `a[i] * x[i]`. */
  function TermsOf(a: seq<int>, x: seq<nat>): (ts: seq<Term>)
    requires |a| == |x|
    ensures |ts| == |a| && forall i :: 0 <= i < |a| ==> ts[i] == Term(a[i], x[i])
  {
    seq(|a|, i requires 0 <= i < |a| => Term(a[i], x[i]))
  }

  /**
   * imply_linear: check that there are as many coefficients as variables (before
   * anything else), return on a failed space, and post the terms `a[i] * x[i]`
   * with imply_linear2.
   */
  method ImplyLinear(home: Space, lim: Limits, b: nat, a: seq<int>, x: seq<nat>, r: Rel, c: int)
    returns (out: Outcome, p: RImpGqBoolInt?, ghost rem: seq<Term>)
    requires b < |home.dom| && forall v :: v in x ==> v < |home.dom|
    modifies home`dom
    ensures |home.dom| == |old(home.dom)|
    ensures |a| != |x| ==> out == Thrown(ArgumentSizeMismatch) && p == null && home.dom == old(home.dom)
    ensures |a| == |x| && home.failed ==> out == Ignored && p == null && home.dom == old(home.dom)
    ensures |a| == |x| && !home.failed ==>
      out == Plan(lim, old(home.dom), b, TermsOf(a, x), r, c, rem) &&
      (old(home.dom[b]) == Unknown && InLimits(lim, c) ==>
        multiset(rem) == multiset(UnassignedTerms(TermsOf(a, x), old(home.dom))))
    ensures p != null ==>
      fresh(p) && p.b == b && p.Valid() && p.Advised(home.dom) && home.dom == old(home.dom) &&
      forall full :: Completes(full, old(home.dom)) ==>
        (TrueViews(p.x, full) >= p.c <==> LinHolds(TermsOf(a, x), full, r, c))
    ensures |a| == |x| && !home.failed && old(home.dom[b]) == Unknown && !out.Thrown? && p == null ==>
      forall full :: Completes(full, old(home.dom)) ==>
        (LinHolds(TermsOf(a, x), full, r, c) <==> home.dom[b] == Unknown)
  {
    rem := [];
    if |a| != |x| {
      out, p := Thrown(ArgumentSizeMismatch), null;
      return;
    }
    if home.failed {
      out, p := Ignored, null;
      return;
    }
    var n := |x|;
    var t := new Term[n](i requires 0 <= i < n => Term(a[i], x[i]));
    assert t[..] == TermsOf(a, x);
    forall u | u in t[..n] ensures u.v < |home.dom| {
      var i :| 0 <= i < n && t[..n][i] == u;
      assert x[i] in x;
    }
    assert t[..n] == t[..];
    out, p, rem := ImplyLinear2(home, lim, b, t, n, r, c);
  }
}
