/**
 * The part of the constraint store the core touches: Boolean variables with
 * three-state domains, the two kinds of view on them (the variable itself and
 * its complement), and the one domain update the core performs.
 */
module BoolStore {
  import opened Seqs
  import opened Counting

  /** A view on store variable `v`: the variable (BoolView) or its complement (NegBoolView). */
  datatype View = Pos(v: nat) | Neg(v: nat)

  /** Complement of a three-state domain. */
  function Flip(t: Tri): Tri
  {
    match t
    case Unknown => Unknown
    case One => Zero
    case Zero => One
  }

  /** The domain a view shows: the variable's, complemented for a negated view. */
  function ViewVal(x: View, dom: seq<Tri>): Tri
    requires x.v < |dom|
  {
    if x.Pos? then dom[x.v] else Flip(dom[x.v])
  }

  /** Every view refers to a variable of the store. */
  predicate InStore(xs: seq<View>, dom: seq<Tri>)
  {
    forall x :: x in xs ==> x.v < |dom|
  }

  /** The domains the views show, position by position. */
  function StatesOf(xs: seq<View>, dom: seq<Tri>): (s: seq<Tri>)
    requires InStore(xs, dom)
    ensures |s| == |xs|
    ensures forall i :: 0 <= i < |xs| ==> s[i] == ViewVal(xs[i], dom)
  {
    seq(|xs|, i requires 0 <= i < |xs| => ViewVal(xs[i], dom))
  }

  lemma StatesOfTail(xs: seq<View>, dom: seq<Tri>)
    requires InStore(xs, dom) && xs != []
    ensures StatesOf(xs, dom)[1..] == StatesOf(xs[1..], dom)
  {
  }

  /** The value a view takes under a total assignment of the store variables. */
  function ViewBit(x: View, full: seq<bool>): bool
    requires x.v < |full|
  {
    if x.Pos? then full[x.v] else !full[x.v]
  }

  /** 1 for a view that is true under `full`, else 0. */
  function ViewOne(full: seq<bool>): View -> int
  {
    (x: View) => if x.v < |full| && ViewBit(x, full) then 1 else 0
  }

  /** Number of views in `xs` that are true under `full`. */
  function TrueViews(xs: seq<View>, full: seq<bool>): int
  {
    SumOf(xs, ViewOne(full))
  }

  /** At most every view is true. */
  lemma {:induction false} TrueViewsBounds(xs: seq<View>, full: seq<bool>)
    ensures 0 <= TrueViews(xs, full) <= |xs|
  {
    if xs != [] {
      TrueViewsBounds(xs[1..], full);
    }
  }

  /** The views of `xs` that are still undecided in `dom`, in their order. */
  function UnassignedViews(xs: seq<View>, dom: seq<Tri>): (r: seq<View>)
    requires InStore(xs, dom)
    ensures forall x :: x in r ==> x in xs && ViewVal(x, dom) == Unknown
    ensures |r| == CountUnknown(StatesOf(xs, dom))
  {
    if xs == [] then []
    else
      StatesOfTail(xs, dom);
      (if ViewVal(xs[0], dom) == Unknown then [xs[0]] else []) + UnassignedViews(xs[1..], dom)
  }

  /**
   * Under any completion of the store, the views true are the views fixed to one
   * plus the undecided views that the completion makes true.
   */
  lemma {:induction false} SplitFixedViews(xs: seq<View>, dom: seq<Tri>, full: seq<bool>)
    requires InStore(xs, dom) && Completes(full, dom)
    ensures TrueViews(xs, full) == CountOne(StatesOf(xs, dom)) + TrueViews(UnassignedViews(xs, dom), full)
  {
    if xs != [] {
      var x := xs[0];
      StatesOfTail(xs, dom);
      SplitFixedViews(xs[1..], dom, full);
      var u := UnassignedViews(xs[1..], dom);
      if ViewVal(x, dom) == Unknown {
        assert UnassignedViews(xs, dom) == [x] + u;
        assert ([x] + u)[1..] == u;
      } else {
        assert UnassignedViews(xs, dom) == u;
        assert ViewOne(full)(x) == (if ViewVal(x, dom) == One then 1 else 0);
      }
    }
  }

  /** The store of Boolean variable domains, and whether it has failed. */
  class Space {
    var dom: seq<Tri>
    var failed: bool

    constructor (dom: seq<Tri>)
      ensures this.dom == dom && !failed
    {
      this.dom := dom;
      failed := false;
    }

    /** Fix the undecided variable `v` to zero (BoolView::zero_none). */
    method ZeroNone(v: nat)
      requires v < |dom| && dom[v] == Unknown
      modifies this`dom
      ensures dom == old(dom)[v := Zero]
    {
      dom := dom[v := Zero];
    }
  }
}
