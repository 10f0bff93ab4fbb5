/**
 * Reader_Eliz: reads a file of transactions in the format `0 2 3 6 8 1` into a
 * 0/1 matrix with one row per transaction and one column per item, in two
 * passes over the file. When the last value of every line is 0 or 1, that value
 * is the transaction's class label and goes to `classes` instead of the matrix.
 */
module Eliz {
  import opened Wrappers
  import opened Tokenizer
  import opened Ssv

  /**
   * A line that both passes skip: one starting with '@', '%' or a blank, and an
   * empty line as long as no transaction has been read (`started` is false).
   */
  predicate Skipped(s: seq<char>, k: nat, started: bool): (r: bool)
    requires k < |s|
    ensures !started ==> (r <==> SkippedLead(s[k]))
    ensures started ==> (r <==> SkippedLead(s[k]) && s[k] != '\n')
  {
    s[k] == '@' || s[k] == '%' || s[k] == ' ' || (s[k] == '\n' && !started)
  }

  /**
   * The transactions read from index `k` on, each as the values of its line.
   * An empty line after the first transaction is an empty transaction.
   */
  function ElizLines(s: seq<char>, k: nat, started: bool): (r: Result<seq<seq<nat>>, ParseError>)
    requires k <= |s|
    ensures r.Success? && !started && r.value != [] ==> r.value[0] != []
    decreases |s| - k
  {
    if k == |s| then Success([])
    else if Skipped(s, k, started) then
      var j := LineEnd(s, k);
      if j == |s| then Success([]) else ElizLines(s, j + 1, started)
    else match LineValues(s, k)
      case Failure(e) => Failure(e)
      case Success((vs, j)) => Prepend([vs], ElizLines(s, j + 1, true))
  }

  /** A skipped line: the transactions are those after its newline, or none at the end of the file. */
  lemma ElizLinesSkip(s: seq<char>, k: nat, started: bool)
    requires k < |s| && Skipped(s, k, started)
    ensures ElizLines(s, k, started) == if LineEnd(s, k) == |s| then Success([]) else ElizLines(s, LineEnd(s, k) + 1, started)
  {
  }

  /** A transaction line: its values come first, then the transactions after its newline. */
  lemma ElizLinesData(s: seq<char>, k: nat, started: bool, vs: seq<nat>, j: nat)
    requires k < |s| && !Skipped(s, k, started) && LineValues(s, k) == Success((vs, j))
    ensures j < |s| && ElizLines(s, k, started) == Prepend([vs], ElizLines(s, j + 1, true))
  {
  }

  /** A transaction line that does not parse: the read fails with its error. */
  lemma ElizLinesFail(s: seq<char>, k: nat, started: bool)
    requires k < |s| && !Skipped(s, k, started) && LineValues(s, k).Failure?
    ensures ElizLines(s, k, started) == Failure(LineValues(s, k).error)
  {
  }

  /**
   * A transaction line when the read from `k` succeeds with `rest`: the line
   * reads as the first transaction of `rest`, and the read after its newline
   * gives the others.
   */
  lemma ElizLinesHead(s: seq<char>, k: nat, started: bool, rest: seq<seq<nat>>)
    requires k < |s| && !Skipped(s, k, started) && ElizLines(s, k, started) == Success(rest)
    ensures LineValues(s, k).Success? && LineValues(s, k).value.1 < |s|
    ensures rest != [] && rest[0] == LineValues(s, k).value.0
    ensures ElizLines(s, LineValues(s, k).value.1 + 1, true) == Success(rest[1..])
  {
  }

  /** nr_i after the values `vs` of one line: `if (x >= nr_i) nr_i = x + 1` for each value in turn. */
  function Widen(n: nat, vs: seq<nat>): (m: nat)
    ensures n <= m
    ensures forall i :: 0 <= i < |vs| ==> vs[i] < m
    decreases |vs|
  {
    if vs == [] then n
    else
      var m := Widen(n, vs[..|vs| - 1]);
      if vs[|vs| - 1] >= m then vs[|vs| - 1] + 1 else m
  }

  /** Widen gives the least bound above `n` and above every value. */
  lemma {:induction false} WidenBound(n: nat, vs: seq<nat>)
    ensures n <= Widen(n, vs)
    ensures forall i :: 0 <= i < |vs| ==> vs[i] < Widen(n, vs)
    ensures Widen(n, vs) == n || exists i :: 0 <= i < |vs| && Widen(n, vs) == vs[i] + 1
    decreases |vs|
  {
    if vs != [] {
      var init := vs[..|vs| - 1];
      WidenBound(n, init);
      forall i | 0 <= i < |vs| - 1 ensures vs[i] == init[i] {
      }
    }
  }

  /** The has_classes test on a line in Reader_Eliz::read: its last value, if any, is 0 or 1. */
  predicate ClassLabelled(vs: seq<nat>)
  {
    vs == [] || vs[|vs| - 1] <= 1
  }

  /** nr_i after the first pass over `lines`: above every value read. */
  function NrItems(lines: seq<seq<nat>>): (n: nat)
    ensures forall t, i :: 0 <= t < |lines| && 0 <= i < |lines[t]| ==> lines[t][i] < n
  {
    if lines == [] then 0 else Widen(NrItems(lines[..|lines| - 1]), lines[|lines| - 1])
  }

  /** has_classes after the first pass over `lines`: it implies that every line is class-labelled. */
  predicate HasClasses(lines: seq<seq<nat>>): (h: bool)
    ensures h ==> forall t :: 0 <= t < |lines| ==> ClassLabelled(lines[t])
  {
    lines == [] || (HasClasses(lines[..|lines| - 1]) && ClassLabelled(lines[|lines| - 1]))
  }

  /** Every value read is below nr_i, and nr_i is the least such bound. */
  lemma {:induction false} NrItemsBound(lines: seq<seq<nat>>)
    ensures forall t, i :: 0 <= t < |lines| && 0 <= i < |lines[t]| ==> lines[t][i] < NrItems(lines)
    ensures NrItems(lines) == 0 || exists t, i :: 0 <= t < |lines| && 0 <= i < |lines[t]| && NrItems(lines) == lines[t][i] + 1
  {
    if lines != [] {
      var init, last := lines[..|lines| - 1], lines[|lines| - 1];
      NrItemsBound(init);
      WidenBound(NrItems(init), last);
      forall t | 0 <= t < |lines| - 1 ensures lines[t] == init[t] {
      }
      if NrItems(lines) != NrItems(init) {
        var i :| 0 <= i < |last| && NrItems(lines) == last[i] + 1;
        assert lines[|lines| - 1][i] + 1 == NrItems(lines);
      } else if NrItems(init) != 0 {
        var t, i :| 0 <= t < |init| && 0 <= i < |init[t]| && NrItems(init) == init[t][i] + 1;
        assert lines[t][i] + 1 == NrItems(lines);
      }
    }
  }

  /** has_classes holds exactly when every line is class-labelled. */
  lemma {:induction false} HasClassesAll(lines: seq<seq<nat>>)
    ensures HasClasses(lines) <==> forall t :: 0 <= t < |lines| ==> ClassLabelled(lines[t])
  {
    if lines != [] {
      var init := lines[..|lines| - 1];
      HasClassesAll(init);
      assert forall t :: 0 <= t < |lines| - 1 ==> lines[t] == init[t];
    }
  }

  /**
   * The token loop of the first pass of Reader_Eliz::read on the line at `k`:
   * nr_i widened by the line's values, has_classes and-ed with the test on its
   * last value, and the index of the line's newline.
   */
  method ScanLine(s: seq<char>, k: nat, nr_i: nat, has_classes: bool) returns (r: Result<(nat, bool, nat), ParseError>)
    requires k <= |s|
    ensures LineValues(s, k).Failure? ==> r == Failure(LineValues(s, k).error)
    ensures LineValues(s, k).Success? ==>
      r == Success((Widen(nr_i, LineValues(s, k).value.0), has_classes && ClassLabelled(LineValues(s, k).value.0), LineValues(s, k).value.1))
  {
    var n, hc, i := nr_i, has_classes, k;
    ghost var vals: seq<nat> := [];
    ConsNil(LineValues(s, k));
    while i == |s| || s[i] != '\n'
      invariant k <= i <= |s|
      invariant LineValues(s, k) == Cons(vals, LineValues(s, i))
      invariant n == Widen(nr_i, vals)
      invariant hc == (has_classes && (!NewlineAt(s, i) || ClassLabelled(vals)))
      decreases |s| - i
    {
      var tok := ParseInt(s, i);
      if tok.Failure? {
        return Failure(tok.error);
      }
      var (x, next) := tok.value;
      LineValuesStep(s, i, x, next);
      ConsCons(vals, [x], LineValues(s, next));
      assert (vals + [x])[..|vals|] == vals;
      if x >= n {
        n := x + 1;
      }
      if NewlineAt(s, next) && hc {
        hc := x <= 1;
      }
      vals := vals + [x];
      i := next;
    }
    assert LineValues(s, i) == Success(([], i));
    assert vals + [] == vals;
    return Success((n, hc, i));
  }

  /**
   * The first pass of Reader_Eliz::read: the number of transactions, nr_i and
   * has_classes, or the first parse error.
   */
  method FirstPass(s: seq<char>) returns (r: Result<(nat, nat, bool), ParseError>)
    ensures ElizLines(s, 0, false).Failure? ==> r == Failure(ElizLines(s, 0, false).error)
    ensures ElizLines(s, 0, false).Success? ==>
      r == Success((|ElizLines(s, 0, false).value|, NrItems(ElizLines(s, 0, false).value), HasClasses(ElizLines(s, 0, false).value)))
  {
    var nr_i, nr_t, has_classes := 0, 0, true;
    var i := 0;
    ghost var seen: seq<seq<nat>> := [];
    ghost var started := false;
    PrependNil(ElizLines(s, 0, false));
    while i < |s|
      invariant i <= |s| && started == (nr_t != 0)
      invariant nr_t == |seen| && nr_i == NrItems(seen) && has_classes == HasClasses(seen)
      invariant ElizLines(s, 0, false) == Prepend(seen, ElizLines(s, i, started))
      decreases |s| - i
    {
      var c := s[i];
      if c == '@' || c == '%' || c == ' ' || (c == '\n' && nr_t == 0) {
        ElizLinesSkip(s, i, started);
        var j := SkipLine(s, i);
        i := if j < |s| then j + 1 else j;
      } else {
        nr_t := nr_t + 1;
        var scan := ScanLine(s, i, nr_i, has_classes);
        if scan.Failure? {
          ElizLinesFail(s, i, started);
          return Failure(scan.error);
        }
        ghost var vs := LineValues(s, i).value.0;
        var j := scan.value.2;
        ElizLinesData(s, i, started, vs, j);
        PrependPrepend(seen, [vs], ElizLines(s, j + 1, true));
        assert (seen + [vs])[..|seen|] == seen;
        nr_i, has_classes := scan.value.0, scan.value.1;
        seen := seen + [vs];
        started := true;
        i := j + 1;
      }
    }
    assert seen + [] == seen;
    return Success((nr_t, nr_i, has_classes));
  }

  /** The items of a transaction: its values, except the last when that is the class label. */
  function Items(vs: seq<nat>, has_classes: bool): (items: seq<nat>)
    ensures |items| == if has_classes && vs != [] then |vs| - 1 else |vs|
    ensures forall i :: 0 <= i < |items| ==> items[i] == vs[i]
  {
    if has_classes && vs != [] then vs[..|vs| - 1] else vs
  }

  /** The class label of a transaction, `classes[cur_t] = x` stored in a bool. */
  predicate ClassOf(vs: seq<nat>)
  {
    vs != [] && vs[|vs| - 1] != 0
  }

  /** A successful `Cons(vs, r)` holds `vs` in front of the values of a successful `r`. */
  lemma ConsPrefix(vs: seq<nat>, r: Result<(seq<nat>, nat), ParseError>, line: seq<nat>, j: nat)
    requires Cons(vs, r) == Success((line, j))
    ensures r.Success? && line == vs + r.value.0 && r.value.1 == j
  {
  }

  /** A line that reads successfully and does not start at its newline starts with a token. */
  lemma TokenOfLine(s: seq<char>, k: nat)
    requires k <= |s| && LineValues(s, k).Success? && !NewlineAt(s, k)
    ensures ParseToken(s, k).Success?
  {
  }

  /**
   * The token loop of the second pass of Reader_Eliz::read on the line at `k`,
   * transaction `t`: each item is set in row `t` of `data`, and the last value
   * goes to `classes[t]` instead when the file has class labels. Returns the
   * index of the line's newline.
   */
  method FillLine(s: seq<char>, k: nat, t: nat, ghost line: seq<nat>, has_classes: bool, data: array2<bool>, classes: array<bool>)
    returns (j: nat)
    requires k <= |s| && LineValues(s, k).Success? && LineValues(s, k).value.0 == line
    requires t < data.Length0 && forall i :: 0 <= i < |line| ==> line[i] < data.Length1
    requires has_classes ==> t < classes.Length
    modifies data, classes
    ensures j == LineValues(s, k).value.1
    ensures forall u, x :: 0 <= u < data.Length0 && 0 <= x < data.Length1 ==>
      data[u, x] == (old(data[u, x]) || (u == t && x in Items(line, has_classes)))
    ensures forall u :: 0 <= u < classes.Length ==>
      classes[u] == if u == t && has_classes && line != [] then ClassOf(line) else old(classes[u])
  {
    var i := k;
    ghost var vals: seq<nat> := [];
    ConsNil(LineValues(s, k));
    while i == |s| || s[i] != '\n'
      invariant k <= i <= |s|
      invariant LineValues(s, k) == Cons(vals, LineValues(s, i))
      invariant forall u, x :: 0 <= u < data.Length0 && 0 <= x < data.Length1 ==>
        data[u, x] == (old(data[u, x]) || (u == t && x in Items(vals, has_classes && NewlineAt(s, i))))
      invariant forall u :: 0 <= u < classes.Length ==>
        classes[u] == if u == t && has_classes && NewlineAt(s, i) && vals != [] then ClassOf(vals) else old(classes[u])
      decreases |s| - i
    {
      ConsPrefix(vals, LineValues(s, i), line, LineValues(s, k).value.1);
      TokenOfLine(s, i);
      var tok := ParseInt(s, i);
      var (x, next) := tok.value;
      LineValuesStep(s, i, x, next);
      ConsCons(vals, [x], LineValues(s, next));
      ConsPrefix(vals + [x], LineValues(s, next), line, LineValues(s, k).value.1);
      assert line[|vals|] == x;
      if !(NewlineAt(s, next) && has_classes) {
        data[t, x] := true;
      } else {
        classes[t] := x != 0;
      }
      vals := vals + [x];
      i := next;
    }
    assert LineValues(s, i) == Success(([], i));
    assert vals + [] == vals;
    return i;
  }

  /**
   * The second pass of Reader_Eliz::read over a file whose first pass read
   * `lines`: row `t` of `data` gets the items of transaction `t`, and
   * `classes[t]` its class label when the file has class labels.
   */
  method SecondPass(s: seq<char>, ghost lines: seq<seq<nat>>, has_classes: bool, data: array2<bool>, classes: array<bool>)
    requires ElizLines(s, 0, false) == Success(lines)
    requires data.Length0 == |lines| && data.Length1 == NrItems(lines)
    requires has_classes ==> classes.Length == |lines|
    requires forall t, x :: 0 <= t < data.Length0 && 0 <= x < data.Length1 ==> !data[t, x]
    requires forall t :: 0 <= t < classes.Length ==> !classes[t]
    modifies data, classes
    ensures forall t, x :: 0 <= t < data.Length0 && 0 <= x < data.Length1 ==>
      data[t, x] == (x in Items(lines[t], has_classes))
    ensures forall t :: 0 <= t < classes.Length ==> classes[t] == (has_classes && ClassOf(lines[t]))
  {
    NrItemsBound(lines);
    var cur_t: nat, i: nat := 0, 0;
    while i < |s|
      invariant i <= |s| && cur_t <= |lines|
      invariant ElizLines(s, i, cur_t != 0) == Success(lines[cur_t..])
      invariant forall t, x :: 0 <= t < data.Length0 && 0 <= x < data.Length1 ==>
        data[t, x] == (t < cur_t && x in Items(lines[t], has_classes))
      invariant forall t :: 0 <= t < classes.Length ==> classes[t] == (has_classes && t < cur_t && ClassOf(lines[t]))
      decreases |s| - i
    {
      i, cur_t := FillNextLine(s, i, cur_t, lines, has_classes, data, classes);
    }
  }

  /**
   * One turn of the second pass's outer loop at index `i` with `cur_t`
   * transactions filled in: a skipped line changes nothing, a transaction line
   * fills in transaction `cur_t`. Returns where the next line starts and the
   * new `cur_t`.
   */
  method FillNextLine(s: seq<char>, i: nat, cur_t: nat, ghost lines: seq<seq<nat>>, has_classes: bool, data: array2<bool>, classes: array<bool>)
    returns (next: nat, next_t: nat)
    requires i < |s| && cur_t <= |lines| && ElizLines(s, i, cur_t != 0) == Success(lines[cur_t..])
    requires data.Length0 == |lines| && forall t, x :: 0 <= t < |lines| && 0 <= x < |lines[t]| ==> lines[t][x] < data.Length1
    requires has_classes ==> classes.Length == |lines|
    modifies data, classes
    ensures i < next <= |s| && next_t <= |lines| && ElizLines(s, next, next_t != 0) == Success(lines[next_t..])
    ensures next_t == cur_t || next_t == cur_t + 1
    ensures forall t, x :: 0 <= t < data.Length0 && 0 <= x < data.Length1 ==>
      data[t, x] == (old(data[t, x]) || (cur_t <= t < next_t && x in Items(lines[t], has_classes)))
    ensures forall t :: 0 <= t < classes.Length ==>
      classes[t] == if has_classes && cur_t <= t < next_t && lines[t] != [] then ClassOf(lines[t]) else old(classes[t])
  {
    var c := s[i];
    if c == '@' || c == '%' || c == ' ' || (c == '\n' && cur_t == 0) {
      ElizLinesSkip(s, i, cur_t != 0);
      var j := SkipLine(s, i);
      next := if j < |s| then j + 1 else j;
      next_t := cur_t;
    } else {
      ElizLinesHead(s, i, cur_t != 0, lines[cur_t..]);
      assert lines[cur_t..][0] == lines[cur_t];
      assert lines[cur_t..][1..] == lines[cur_t + 1..];
      var j := FillLine(s, i, cur_t, lines[cur_t], has_classes, data, classes);
      next, next_t := j + 1, cur_t + 1;
    }
  }

  /** An empty line right after another line, which Reader_Eliz reads as an empty transaction and Reader_SSV skips. */
  predicate InnerEmptyLine(s: seq<char>, i: nat)
    requires i < |s|
  {
    0 < i && s[i - 1] == '\n' && s[i] == '\n'
  }

  /**
   * Reader_Eliz extends Reader_SSV: on a file with no empty line after the
   * first one read, both readers read the same rows.
   */
  lemma {:induction false} ElizAgreesWithSsv(s: seq<char>, k: nat, started: bool)
    requires k <= |s| && (started ==> !NewlineAt(s, k))
    requires forall i :: k < i < |s| ==> !InnerEmptyLine(s, i)
    ensures ElizLines(s, k, started) == SsvRows(s, k)
    decreases |s| - k
  {
    if k < |s| {
      if Skipped(s, k, started) {
        assert SkippedLead(s[k]);
        var j := LineEnd(s, k);
        ElizLinesSkip(s, k, started);
        SsvRowsSkip(s, k);
        if j < |s| {
          assert j + 1 < |s| ==> !InnerEmptyLine(s, j + 1);
          ElizAgreesWithSsv(s, j + 1, started);
        }
      } else {
        assert !SkippedLead(s[k]);
        match LineValues(s, k)
        case Success((vs, j)) =>
          ElizLinesData(s, k, started, vs, j);
          SsvRowsData(s, k, vs, j);
          assert j + 1 < |s| ==> !InnerEmptyLine(s, j + 1);
          ElizAgreesWithSsv(s, j + 1, true);
        case Failure(_) =>
          ElizLinesFail(s, k, started);
          SsvRowsFail(s, k);
      }
    }
  }

  class ElizReader {
    /** One row per transaction and one column per item: `data[t, x]` when transaction `t` holds item `x`. */
    var data: array2<bool>
    /** The class label of each transaction; left as it was when the file has no class labels. */
    var classes: array<bool>

    constructor()
      ensures data.Length0 == 0 && data.Length1 == 0 && classes.Length == 0
    {
      data := new bool[0, 0];
      classes := new bool[0];
    }

    /**
     * read: the two passes over the file `s`. A parse error in the first pass
     * ends the read with that error and nothing changed.
     */
    method Read(s: seq<char>) returns (err: Option<ParseError>)
      modifies this
      ensures ElizLines(s, 0, false).Failure? ==>
        err == Some(ElizLines(s, 0, false).error) && data == old(data) && classes == old(classes)
      ensures ElizLines(s, 0, false).Success? ==> err == None
      ensures ElizLines(s, 0, false).Success? ==>
        data.Length0 == |ElizLines(s, 0, false).value| && data.Length1 == NrItems(ElizLines(s, 0, false).value)
      ensures ElizLines(s, 0, false).Success? ==>
        forall t, x :: 0 <= t < data.Length0 && 0 <= x < data.Length1 ==>
          data[t, x] == (x in Items(ElizLines(s, 0, false).value[t], HasClasses(ElizLines(s, 0, false).value)))
      ensures ElizLines(s, 0, false).Success? && HasClasses(ElizLines(s, 0, false).value) ==>
        classes.Length == |ElizLines(s, 0, false).value| &&
        forall t :: 0 <= t < classes.Length ==> classes[t] == ClassOf(ElizLines(s, 0, false).value[t])
      ensures ElizLines(s, 0, false).Success? && !HasClasses(ElizLines(s, 0, false).value) ==> classes == old(classes)
    {
      var first := FirstPass(s);
      if first.Failure? {
        return Some(first.error);
      }
      var (nr_t, nr_i, has_classes) := first.value;
      ghost var lines := ElizLines(s, 0, false).value;
      var matrix := new bool[nr_t, nr_i]((_, _) => false);
      var labels := new bool[if has_classes then nr_t else 0](_ => false);
      SecondPass(s, lines, has_classes, matrix, labels);
      data := matrix;
      if has_classes {
        classes := labels;
      }
      return None;
    }
  }
}
