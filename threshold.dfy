/**
 * The incremental propagator for the implication `b -> (x_0 + ... + x_{n-1} >= c)`
 * over Boolean views (class RImpGqBoolInt): posting with elimination of fixed
 * views, one advice per view that becomes fixed, propagation, and cloning.
 *
 * The constraint is an implication, not an equivalence: nothing here ever
 * fixes `b` to one.
 */
module Threshold {
  import opened Seqs
  import opened Counting
  import opened BoolStore

  /** What advise reports to the engine (ES_FIX or ES_NOFIX). */
  datatype AdviseStatus = Fix | NoFix

  /** What propagate reports: ES_SUBSUMED, or a rewrite into the plain `sum(x) >= c` propagator. */
  datatype PropagateStatus = Subsumed | Rewrite(x: seq<View>, c: int)

  class RImpGqBoolInt {
    /** The control variable. */
    const b: nat
    /** The views; advise never removes a view from this array. */
    var x: seq<View>
    /** The threshold still to be reached (lowered by one for every view fixed to one). */
    var c: int
    /** The number of views not yet reported fixed (n_s). */
    var ns: int

    /** The threshold the propagator was created with. */
    ghost var c0: int
    /** What the advisors have reported about each view so far. */
    ghost var seen: seq<Tri>

    /** The counters summarise the advice received: `ns` undecided views, `c0 - c` views fixed to one. */
    ghost predicate Valid()
      reads this
      ensures Valid() ==> 0 <= ns && ns + (c0 - c) <= |x|
    {
      |seen| == |x| && ns == CountUnknown(seen) && c == c0 - CountOne(seen)
    }

    /** Every change of the views in `dom` has been delivered to the propagator's advisors. */
    ghost predicate Advised(dom: seq<Tri>)
      reads this
    {
      InStore(x, dom) && seen == StatesOf(x, dom)
    }

    /** Constructor for creation: all views undecided, `n_s` is their number. */
    constructor (b: nat, x: seq<View>, c: int)
      ensures this.b == b && this.x == x && this.c == c && ns == |x|
      ensures c0 == c && seen == AllUnknown(|x|) && Valid()
    {
      this.b := b;
      this.x := x;
      this.c := c;
      ns := |x|;
      c0 := c;
      seen := AllUnknown(|x|);
    }

    /** Constructor for cloning `p`: the views, `c` and `n_s` are copied, `b` is shared. */
    constructor Clone(p: RImpGqBoolInt)
      ensures b == p.b && x == p.x && c == p.c && ns == p.ns
      ensures c0 == p.c0 && seen == p.seen
    {
      b := p.b;
      x := p.x;
      c := p.c;
      ns := p.ns;
      c0 := p.c0;
      seen := p.seen;
    }

    /** Create a copy during cloning. */
    method Copy() returns (p: RImpGqBoolInt)
      requires Valid()
      ensures fresh(p) && p.Valid()
      ensures p.b == b && p.x == x && p.c == c && p.ns == ns
      ensures p.c0 == c0 && p.seen == seen
    {
      p := new RImpGqBoolInt.Clone(this);
    }

    /**
     * Post `b -> sum(x) >= c` with `b` undecided: drop the views already fixed
     * (lowering `c` for each one fixed to one), then force `b` to zero if the
     * remaining views cannot reach `c`, do nothing if `c <= 0`, and otherwise
     * create a propagator on exactly the undecided views.
     */
    static method Post(home: Space, b: nat, x: array<View>, c: int) returns (p: RImpGqBoolInt?)
      requires b < |home.dom| && home.dom[b] == Unknown
      requires InStore(x[..], home.dom)
      modifies home`dom, x
      ensures var s := StatesOf(old(x[..]), old(home.dom));
              var k := c - CountOne(s);
              if CountUnknown(s) < k then
                home.dom == old(home.dom)[b := Zero] && p == null
              else if k <= 0 then
                home.dom == old(home.dom) && p == null
              else
                home.dom == old(home.dom) && p != null && fresh(p) &&
                p.b == b && p.c == k && p.ns == CountUnknown(s) >= k &&
                multiset(p.x) == multiset(UnassignedViews(old(x[..]), old(home.dom))) &&
                p.Valid() && p.Advised(home.dom)
      ensures p != null ==> forall full :: Completes(full, old(home.dom)) ==>
                (TrueViews(p.x, full) >= p.c <==> TrueViews(old(x[..]), full) >= c)
      ensures p == null ==> forall full :: Completes(full, old(home.dom)) ==>
                (TrueViews(old(x[..]), full) >= c <==> home.dom[b] == Unknown)
    {
      ghost var orig := x[..];
      var dom := home.dom;
      var nx, k := DropFixed(x, dom, c);
      ghost var rest := UnassignedViews(orig, dom);
      assert |x[..nx]| == |multiset(x[..nx])| == |rest|;
      p := Settle(home, b, x[..nx], k);
      if nx < k || k <= 0 {
        forall full | Completes(full, dom) ensures TrueViews(orig, full) >= c <==> k <= 0 {
          PostExitsSound(orig, dom, c, full);
        }
      } else {
        forall full | Completes(full, dom) ensures TrueViews(p.x, full) >= k <==> TrueViews(orig, full) >= c {
          PostCreateFaithful(orig, dom, c, p.x, full);
        }
      }
    }

    /**
     * The decision of Post once only the undecided views `live` are left and `k`
     * is the threshold still to reach: force `b` to zero when the views cannot
     * reach it, do nothing when it is already reached, and otherwise create a
     * propagator whose counters start at `|live|` and `k`.
     */
    static method Settle(home: Space, b: nat, live: seq<View>, k: int) returns (p: RImpGqBoolInt?)
      requires b < |home.dom| && home.dom[b] == Unknown
      requires forall y :: y in live ==> y.v < |home.dom| && ViewVal(y, home.dom) == Unknown
      modifies home`dom
      ensures if |live| < k then
                home.dom == old(home.dom)[b := Zero] && p == null
              else if k <= 0 then
                home.dom == old(home.dom) && p == null
              else
                home.dom == old(home.dom) && p != null && fresh(p) &&
                p.b == b && p.c == k && p.ns == |live| && p.x == live &&
                p.Valid() && p.Advised(home.dom)
    {
      if |live| < k {
        home.ZeroNone(b);
        return null;
      }
      if k <= 0 {
        return null;
      }
      p := new RImpGqBoolInt(b, live, k);
      assert StatesOf(p.x, home.dom) == p.seen;
    }

    /**
     * The elimination loop of Post: move every fixed view out of the live prefix
     * `x[..nx]` by overwriting it with the last live view, lowering `c` by one
     * for each view fixed to one.
     */
    static method DropFixed(x: array<View>, dom: seq<Tri>, c: int) returns (nx: nat, k: int)
      requires InStore(x[..], dom)
      modifies x
      ensures nx <= x.Length
      ensures multiset(x[..nx]) == multiset(UnassignedViews(old(x[..]), dom))
      ensures forall y :: y in x[..nx] ==> y.v < |dom| && ViewVal(y, dom) == Unknown
      ensures k == c - CountOne(StatesOf(old(x[..]), dom))
    {
      ghost var orig := x[..];
      nx := x.Length;
      k := c;
      var i := nx;
      while i > 0
        invariant 0 <= i <= nx <= x.Length
        invariant forall j :: 0 <= j < i ==> x[j] == orig[j]
        invariant multiset(x[i..nx]) == multiset(UnassignedViews(orig[i..], dom))
        invariant k == c - CountOne(StatesOf(orig[i..], dom))
      {
        i := i - 1;
        UnassignedStep(orig, dom, i);
        ghost var before, oldNx, oldK := x[..], nx, k;
        var state := ViewVal(x[i], dom);
        if state == Zero {
          x[i] := x[nx - 1];
          nx := nx - 1;
        } else if state == One {
          x[i] := x[nx - 1];
          nx := nx - 1;
          k := k - 1;
        }
        DropFixedStep(before, x[..], orig, dom, c, i, oldNx, nx, oldK, k);
      }
      assert orig[0..] == orig;
      AllUnassigned(x[..nx], orig, dom);
    }

    /**
     * Advice that the view at position `i` became fixed (`viewOne`: it became one):
     * lower `c` if it became one, always lower `n_s`, and ask for propagation
     * exactly when the threshold became unreachable or was reached.
     */
    method Advise(ghost i: nat, viewOne: bool) returns (es: AdviseStatus)
      requires Valid() && i < |x| && seen[i] == Unknown
      modifies this`c, this`ns, this`seen
      ensures Valid() && c0 == old(c0)
      ensures seen == old(seen)[i := if viewOne then One else Zero]
      ensures c == old(c) - (if viewOne then 1 else 0) && ns == old(ns) - 1
      ensures es == NoFix <==> ns < c || c <= 0
      ensures c <= old(c) && ns - c <= old(ns - c)
      ensures old(ns < c || c <= 0) ==> es == NoFix
    {
      CountsAfterFix(seen, i, viewOne);
      if viewOne {
        c := c - 1;
      }
      ns := ns - 1;
      seen := seen[i := if viewOne then One else Zero];
      if ns < c || c <= 0 {
        es := NoFix;
      } else {
        es := Fix;
      }
    }

    /**
     * Propagation: with `b` undecided, force it to zero only when the threshold is
     * unreachable; with `b` one, rewrite into `sum(x) >= c` over the current `x`
     * and `c`; with `b` zero, nothing. Every other path ends subsumed.
     *
     * With `b` undecided, subsumption is sound when `n_s < c` (after `b` is zero)
     * and when `c <= 0` (every completion reaches `c0`). With `b` undecided and
     * `n_s >= c > 0` the constraint is still live, yet this path also ends
     * subsumed: the engine only runs propagate with `b` undecided after Advise
     * asked for it, that is after `n_s < c || c <= 0` became true.
     */
    method Propagate(home: Space) returns (ps: PropagateStatus)
      requires Valid() && b < |home.dom|
      modifies home`dom
      ensures old(home.dom[b]) == Unknown ==>
        ps == Subsumed &&
        home.dom == (if ns < c then old(home.dom)[b := Zero] else old(home.dom))
      ensures old(home.dom[b]) == Unknown && ns < c ==>
        forall full :: Completes(full, seen) ==> CountTrue(full) < c0
      ensures old(home.dom[b]) == Unknown && c <= 0 ==>
        forall full :: Completes(full, seen) ==> CountTrue(full) >= c0
      ensures old(home.dom[b]) == One ==> ps == Rewrite(x, c) && home.dom == old(home.dom)
      ensures old(home.dom[b]) == Zero ==> ps == Subsumed && home.dom == old(home.dom)
    {
      if home.dom[b] == Unknown {
        if ns < c {
          ThresholdReachable(seen, c0);
          home.ZeroNone(b);
        } else if c <= 0 {
          ThresholdEntailed(seen, c0);
        }
      } else if home.dom[b] == One {
        ps := Rewrite(x, c);
        return;
      }
      ps := Subsumed;
    }

    /**
     * Propagation with the rewrite done on the undecided views only (what
     * ReLinBoolInt::normalize would leave); otherwise as Propagate. The rewritten
     * constraint has the same solutions as the original one. With `b` undecided,
     * the same scheduling assumption as in Propagate applies.
     */
    method PropagateNormalized(home: Space) returns (ps: PropagateStatus)
      requires Valid() && b < |home.dom| && Advised(home.dom)
      modifies home`dom
      ensures old(home.dom[b]) == Unknown ==>
        ps == Subsumed &&
        home.dom == (if ns < c then old(home.dom)[b := Zero] else old(home.dom))
      ensures old(home.dom[b]) == Unknown && ns < c ==>
        forall full :: Completes(full, seen) ==> CountTrue(full) < c0
      ensures old(home.dom[b]) == Unknown && c <= 0 ==>
        forall full :: Completes(full, seen) ==> CountTrue(full) >= c0
      ensures old(home.dom[b]) == One ==>
        home.dom == old(home.dom) && ps.Rewrite? &&
        ps.x == UnassignedViews(x, home.dom) && ps.c == c &&
        forall full :: Completes(full, home.dom) ==> (TrueViews(ps.x, full) >= ps.c <==> TrueViews(x, full) >= c0)
      ensures old(home.dom[b]) == Zero ==> ps == Subsumed && home.dom == old(home.dom)
    {
      if home.dom[b] == Unknown {
        if ns < c {
          ThresholdReachable(seen, c0);
          home.ZeroNone(b);
        } else if c <= 0 {
          ThresholdEntailed(seen, c0);
        }
      } else if home.dom[b] == One {
        var live := UnassignedViews(x, home.dom);
        forall full | Completes(full, home.dom)
          ensures TrueViews(live, full) >= c <==> TrueViews(x, full) >= c0
        {
          NormalizedRewriteFaithful(x, home.dom, c0, full);
        }
        ps := Rewrite(live, c);
        return;
      }
      ps := Subsumed;
    }
  }

  /**
   * The two early exits of Post are sound for every completion of the store:
   * when the undecided views cannot make up what is missing, the sum stays
   * below `c`; when the views fixed to one already reach `c`, the sum reaches it.
   */
  lemma PostExitsSound(xs: seq<View>, dom: seq<Tri>, c: int, full: seq<bool>)
    requires InStore(xs, dom) && Completes(full, dom)
    ensures var s := StatesOf(xs, dom);
      (CountUnknown(s) < c - CountOne(s) ==> TrueViews(xs, full) < c) &&
      (c - CountOne(s) <= 0 ==> TrueViews(xs, full) >= c)
  {
    SplitFixedViews(xs, dom, full);
    var u := UnassignedViews(xs, dom);
    TrueViewsBounds(u, full);
  }

  /**
   * Rewriting with the undecided views and the lowered threshold keeps the
   * meaning of `sum(x) >= c0` under every completion of the store.
   */
  lemma NormalizedRewriteFaithful(xs: seq<View>, dom: seq<Tri>, c0: int, full: seq<bool>)
    requires InStore(xs, dom) && Completes(full, dom)
    ensures TrueViews(UnassignedViews(xs, dom), full) >= c0 - CountOne(StatesOf(xs, dom))
        <==> TrueViews(xs, full) >= c0
  {
    SplitFixedViews(xs, dom, full);
  }

  /**
   * A propagator on any arrangement of the undecided views, with the threshold
   * lowered by the views fixed to one, has the meaning of the posted constraint.
   */
  lemma PostCreateFaithful(xs: seq<View>, dom: seq<Tri>, c: int, px: seq<View>, full: seq<bool>)
    requires InStore(xs, dom) && Completes(full, dom)
    requires multiset(px) == multiset(UnassignedViews(xs, dom))
    ensures TrueViews(px, full) >= c - CountOne(StatesOf(xs, dom)) <==> TrueViews(xs, full) >= c
  {
    NormalizedRewriteFaithful(xs, dom, c, full);
    SumOfPerm(px, UnassignedViews(xs, dom), ViewOne(full));
  }

  /**
   * As written, Propagate rewrites with all of `x` and the lowered `c`, so a view
   * already fixed to one counts twice: with three views, the first fixed to one and
   * `c0 = 2`, the rewritten constraint accepts the assignment that makes only the
   * first view true, which the original constraint rejects.
   */
  lemma RewriteAsWrittenOvercounts()
    ensures var xs := [Pos(0), Pos(1), Pos(2)];
            var dom := [One, Unknown, Unknown];
            var c0 := 2;
            var c := c0 - CountOne(StatesOf(xs, dom));
            var full := [true, false, false];
            Completes(full, dom) && c == 1 &&
            TrueViews(xs, full) >= c && !(TrueViews(xs, full) >= c0)
  {
    var xs := [Pos(0), Pos(1), Pos(2)];
    var dom := [One, Unknown, Unknown];
    var full := [true, false, false];
    assert StatesOf(xs, dom) == [One, Unknown, Unknown];
    assert xs[1..] == [Pos(1), Pos(2)] && xs[1..][1..] == [Pos(2)] && xs[1..][1..][1..] == [];
    assert TrueViews(xs, full) == 1;
  }

  /** One step of the backward elimination scan, stated on the suffix starting at `i`. */
  lemma UnassignedStep(orig: seq<View>, dom: seq<Tri>, i: nat)
    requires InStore(orig, dom) && i < |orig|
    ensures InStore(orig[i..], dom) && InStore(orig[i + 1..], dom) && orig[i].v < |dom|
    ensures UnassignedViews(orig[i..], dom) ==
      (if ViewVal(orig[i], dom) == Unknown then [orig[i]] else []) + UnassignedViews(orig[i + 1..], dom)
    ensures CountOne(StatesOf(orig[i..], dom)) ==
      (if ViewVal(orig[i], dom) == One then 1 else 0) + CountOne(StatesOf(orig[i + 1..], dom))
  {
    assert orig[i] in orig;
    assert orig[i..][1..] == orig[i + 1..];
    StatesOfTail(orig[i..], dom);
  }

  /**
   * The elimination loop of Post keeps its invariant over one step: the scanned
   * suffix `orig[i..]` has its undecided views in the live part `after[i..nx2]`
   * and its views fixed to one subtracted from `k2`, and the unscanned prefix is
   * untouched.
   */
  lemma DropFixedStep(before: seq<View>, after: seq<View>, orig: seq<View>, dom: seq<Tri>, c: int,
                      i: nat, nx: nat, nx2: nat, k: int, k2: int)
    requires InStore(orig, dom) && i < nx <= |before| == |orig|
    requires forall j :: 0 <= j <= i ==> before[j] == orig[j]
    requires multiset(before[i + 1..nx]) == multiset(UnassignedViews(orig[i + 1..], dom))
    requires k == c - CountOne(StatesOf(orig[i + 1..], dom))
    requires orig[i].v < |dom|
    requires ViewVal(orig[i], dom) == Unknown ==> after == before && nx2 == nx && k2 == k
    requires ViewVal(orig[i], dom) == Zero ==> after == before[i := before[nx - 1]] && nx2 == nx - 1 && k2 == k
    requires ViewVal(orig[i], dom) == One ==> after == before[i := before[nx - 1]] && nx2 == nx - 1 && k2 == k - 1
    ensures forall j :: 0 <= j < i ==> after[j] == orig[j]
    ensures multiset(after[i..nx2]) == multiset(UnassignedViews(orig[i..], dom))
    ensures k2 == c - CountOne(StatesOf(orig[i..], dom))
  {
    DropFixedLive(before, after, orig, dom, i, nx, nx2);
    UnassignedStep(orig, dom, i);
  }

  /** The live part of the elimination step, on its own to keep the proof small. */
  lemma DropFixedLive(before: seq<View>, after: seq<View>, orig: seq<View>, dom: seq<Tri>,
                      i: nat, nx: nat, nx2: nat)
    requires InStore(orig, dom) && i < nx <= |before| == |orig|
    requires before[i] == orig[i]
    requires multiset(before[i + 1..nx]) == multiset(UnassignedViews(orig[i + 1..], dom))
    requires orig[i].v < |dom|
    requires ViewVal(orig[i], dom) == Unknown ==> after == before && nx2 == nx
    requires ViewVal(orig[i], dom) != Unknown ==> after == before[i := before[nx - 1]] && nx2 == nx - 1
    ensures multiset(after[i..nx2]) == multiset(UnassignedViews(orig[i..], dom))
  {
    var keep := ViewVal(orig[i], dom) == Unknown;
    UnassignedStep(orig, dom, i);
    DropStep(before, after, orig[i], UnassignedViews(orig[i..], dom), UnassignedViews(orig[i + 1..], dom),
             i, nx, nx2, keep);
  }

  /** A rearrangement of the undecided views holds undecided views only. */
  lemma AllUnassigned(a: seq<View>, orig: seq<View>, dom: seq<Tri>)
    requires InStore(orig, dom) && multiset(a) == multiset(UnassignedViews(orig, dom))
    ensures forall y :: y in a ==> y.v < |dom| && ViewVal(y, dom) == Unknown
  {
    forall y | y in a ensures y.v < |dom| && ViewVal(y, dom) == Unknown {
      assert y in multiset(a);
    }
  }
}
