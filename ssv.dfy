/**
 * Reader_SSV: reads a file of space-separated values into rows of integers.
 * A line whose first character is '@', '%', a blank or the newline itself is
 * skipped; every other line is read token by token into one row, and the rows
 * are appended to `data` in file order.
 */
module Ssv {
  import opened Wrappers
  import opened Tokenizer

  /**
   * A line starting with one of these is skipped by Reader_SSV::read. None of
   * them can start a number, and all but '@' and '%' are separators.
   */
  predicate SkippedLead(ch: char): (b: bool)
    ensures b ==> !IsDigit(ch)
    ensures b && ch != '@' && ch != '%' ==> IsSpace(ch)
  {
    ch == '@' || ch == '%' || ch == ' ' || ch == '\n'
  }

  /** Put the rows `xs` in front of a successful result. */
  function Prepend(xs: seq<seq<nat>>, r: Result<seq<seq<nat>>, ParseError>): Result<seq<seq<nat>>, ParseError>
  {
    match r
    case Failure(e) => Failure(e)
    case Success(ys) => Success(xs + ys)
  }

  lemma PrependNil(r: Result<seq<seq<nat>>, ParseError>)
    ensures Prepend([], r) == r
  {
    if r.Success? {
      assert [] + r.value == r.value;
    }
  }

  lemma PrependPrepend(xs: seq<seq<nat>>, ys: seq<seq<nat>>, r: Result<seq<seq<nat>>, ParseError>)
    ensures Prepend(xs, Prepend(ys, r)) == Prepend(xs + ys, r)
  {
    if r.Success? {
      assert xs + (ys + r.value) == (xs + ys) + r.value;
    }
  }

  /**
   * The rows read from index `k` on: the end of the file ends the read, a
   * skipped line is passed over up to its newline, and any other line is one row.
   */
  function SsvRows(s: seq<char>, k: nat): (r: Result<seq<seq<nat>>, ParseError>)
    requires k <= |s|
    ensures r.Success? ==> forall row :: row in r.value ==> row != []
    decreases |s| - k
  {
    if k == |s| then Success([])
    else if SkippedLead(s[k]) then
      var j := LineEnd(s, k);
      if j == |s| then Success([]) else SsvRows(s, j + 1)
    else match LineValues(s, k)
      case Failure(e) => Failure(e)
      case Success((row, j)) => Prepend([row], SsvRows(s, j + 1))
  }

  /** One data line: its row comes first, then the rows after its newline. */
  lemma SsvRowsData(s: seq<char>, k: nat, row: seq<nat>, j: nat)
    requires k < |s| && !SkippedLead(s[k]) && LineValues(s, k) == Success((row, j))
    ensures j < |s| && SsvRows(s, k) == Prepend([row], SsvRows(s, j + 1))
  {
  }

  /** A data line read as `row`, followed by lines read as `rest`, is read as `row` then `rest`. */
  lemma SsvRowsCons(s: seq<char>, k: nat, row: seq<nat>, j: nat, rest: seq<seq<nat>>)
    requires DigitAt(s, k) && LineValues(s, k) == Success((row, j))
    requires j < |s| && SsvRows(s, j + 1) == Success(rest)
    ensures SsvRows(s, k) == Success([row] + rest)
  {
    SsvRowsData(s, k, row, j);
  }

  /** A data line that does not parse: the read fails with its error. */
  lemma SsvRowsFail(s: seq<char>, k: nat)
    requires k < |s| && !SkippedLead(s[k]) && LineValues(s, k).Failure?
    ensures SsvRows(s, k) == Failure(LineValues(s, k).error)
  {
  }

  /** A skipped line: the rows are those after its newline, or none at the end of the file. */
  lemma SsvRowsSkip(s: seq<char>, k: nat)
    requires k < |s| && SkippedLead(s[k])
    ensures SsvRows(s, k) == if LineEnd(s, k) == |s| then Success([]) else SsvRows(s, LineEnd(s, k) + 1)
  {
  }

  class SsvReader {
    /** The rows read so far. */
    var data: seq<seq<nat>>

    constructor()
      ensures data == []
    {
      data := [];
    }

    /**
     * read: append the rows of the file `s` to `data`. A token holding a
     * character other than a digit makes the read fail with that error.
     */
    method Read(s: seq<char>) returns (err: Option<ParseError>)
      modifies this
      ensures SsvRows(s, 0).Success? ==> err == None && data == old(data) + SsvRows(s, 0).value
      ensures SsvRows(s, 0).Failure? ==> err == Some(SsvRows(s, 0).error) && old(data) <= data
    {
      var i := 0;
      ghost var added: seq<seq<nat>> := [];
      PrependNil(SsvRows(s, 0));
      while i < |s|
        invariant i <= |s|
        invariant data == old(data) + added
        invariant SsvRows(s, 0) == Prepend(added, SsvRows(s, i))
        decreases |s| - i
      {
        var next, rows, e := ReadNextLine(s, i);
        if e.Some? {
          return e;
        }
        PrependPrepend(added, rows, SsvRows(s, next));
        data := data + rows;
        added := added + rows;
        i := next;
      }
      assert added + [] == added;
      return None;
    }
  }

  /**
   * One turn of read's outer loop at index `k`: a data line gives one row, a
   * skipped line none; `next` is where the following line starts (or the end
   * of the file).
   */
  method ReadNextLine(s: seq<char>, k: nat) returns (next: nat, rows: seq<seq<nat>>, err: Option<ParseError>)
    requires k < |s|
    ensures err.Some? ==> SsvRows(s, k) == Failure(err.value)
    ensures err.None? ==> k < next <= |s| && |rows| <= 1 && SsvRows(s, k) == Prepend(rows, SsvRows(s, next))
  {
    var c := s[k];
    if c != '@' && c != '%' && c != ' ' && c != '\n' {
      var line := ReadLine(s, k);
      if line.Failure? {
        return k, [], Some(line.error);
      }
      var (row, j) := line.value;
      SsvRowsData(s, k, row, j);
      return j + 1, [row], None;
    } else {
      SsvRowsSkip(s, k);
      next := SkipLine(s, k);
      if next < |s| {
        next := next + 1;
      } else {
        assert SsvRows(s, next) == Success([]);
      }
      PrependNil(SsvRows(s, next));
      return next, [], None;
    }
  }

  /** The canonical text of rows: each row rendered as one line. */
  function RenderRows(rows: seq<seq<nat>>): (text: seq<char>)
    ensures rows == [] <==> text == []
  {
    if rows == [] then [] else RenderLine(rows[0]) + RenderRows(rows[1..])
  }

  /** A skipped line (a comment, a line starting with a blank, an empty line) contributes no row. */
  lemma CommentSkipped(s: seq<char>, k: nat, line: seq<char>)
    requires Occurs(s, k, line) && line != [] && SkippedLead(line[0])
    requires line[|line| - 1] == '\n' && forall i :: 0 <= i < |line| - 1 ==> line[i] != '\n'
    ensures SsvRows(s, k) == SsvRows(s, k + |line|)
  {
    assert s[k + 0] == line[0];
    forall i | k <= i < k + |line| - 1 ensures s[i] != '\n' {
      assert s[k + (i - k)] == line[i - k];
    }
    assert s[k + (|line| - 1)] == line[|line| - 1];
    LineEndIs(s, k, k + |line| - 1);
  }

  /** The rendered text of non-empty rows, up to the end of the file, is read back as those rows. */
  lemma {:induction false} SsvRoundTrip(s: seq<char>, k: nat, rows: seq<seq<nat>>)
    requires forall row :: row in rows ==> row != []
    requires Occurs(s, k, RenderRows(rows)) && k + |RenderRows(rows)| == |s|
    ensures SsvRows(s, k) == Success(rows)
    decreases |rows|
  {
    if rows != [] {
      var line, more := RenderLine(rows[0]), RenderRows(rows[1..]);
      assert RenderRows(rows) == line + more;
      OccursSplit(s, k, line, more);
      assert k + |line| + |more| == |s|;
      LineRoundTrip(s, k, rows[0]);
      assert rows[0] in rows;
      assert s[k + 0] == line[0] && DigitAt(s, k);
      assert forall row :: row in rows[1..] ==> row in rows;
      SsvRoundTrip(s, k + |line|, rows[1..]);
      SsvRowsCons(s, k, rows[0], k + |line| - 1, rows[1..]);
      HeadTail(rows);
    }
  }
}
