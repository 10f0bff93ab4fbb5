/**
 * The tokenizer shared by the whitespace-separated readers (Reader_SSV and
 * Reader_Eliz): separators, decimal tokens read by parse_int, and the values of
 * one line. The input file is a sequence of characters; reading a character
 * (getc) is advancing an index into it, and the index one past the last
 * character is the end of the file, where getc returns EOF.
 */
module Tokenizer {
  import opened Wrappers

  /** What aborts a read: where a digit was due, a character that is neither a digit nor a separator, or the end of the file (`at == |s|`). */
  datatype ParseError = NonDigit(at: nat)

  /** The value getc returns at the end of the file. */
  const EOF: int := -1

  /** getc at index `i`: the character code, or EOF past the last character. */
  function Getc(s: seq<char>, i: nat): (c: int)
    requires i <= |s|
    ensures c == EOF <==> i == |s|
  {
    if i < |s| then s[i] as int else EOF
  }

  /** is_space: the separators are blank, newline, tab, comma and carriage return; none is a digit. */
  predicate IsSpace(ch: char): (b: bool)
    ensures b ==> !IsDigit(ch)
  {
    ch == ' ' || ch == '\n' || ch == '\t' || ch == ',' || ch == '\r'
  }

  predicate IsDigit(ch: char)
  {
    '0' <= ch <= '9'
  }

  /** No separator is a digit, and parse_int's digit test `0 <= c - '0' <= 9` is exactly IsDigit. */
  lemma SeparatorNotDigit(ch: char)
    ensures IsSpace(ch) ==> !IsDigit(ch)
    ensures IsDigit(ch) <==> 0 <= (ch as int) - ('0' as int) <= 9
  {
  }

  /** A separator at index `i` (EOF is none). */
  predicate SpaceAt(s: seq<char>, i: nat)
  {
    i < |s| && IsSpace(s[i])
  }

  /** A digit at index `i` (EOF is none). */
  predicate DigitAt(s: seq<char>, i: nat)
  {
    i < |s| && IsDigit(s[i])
  }

  /** A newline at index `i` (EOF is none). */
  predicate NewlineAt(s: seq<char>, i: nat)
  {
    i < |s| && s[i] == '\n'
  }

  function DigitValue(ch: char): (d: nat)
    requires IsDigit(ch)
    ensures d < 10
  {
    (ch as int) - ('0' as int)
  }

  function DigitChar(d: nat): (ch: char)
    requires d < 10
    ensures IsDigit(ch) && DigitValue(ch) == d
  {
    ('0' as int + d) as char
  }

  predicate AllDigits(ds: seq<char>)
  {
    forall i :: 0 <= i < |ds| ==> IsDigit(ds[i])
  }

  /** The value of the digits from index `k` up to `e` of `s`, most significant first. */
  function DecimalAt(s: seq<char>, k: nat, e: nat): nat
    requires k <= e <= |s| && forall j :: k <= j < e ==> IsDigit(s[j])
    decreases e - k
  {
    if e == k then 0 else DecimalAt(s, k, e - 1) * 10 + DigitValue(s[e - 1])
  }

  /** The decimal rendering of `n`, without leading zeros. */
  function Render(n: nat): (ds: seq<char>)
    ensures |ds| > 0 && AllDigits(ds)
  {
    if n < 10 then [DigitChar(n)] else Render(n / 10) + [DigitChar(n % 10)]
  }

  /** The index of the first character at or after `k` that is not a digit, or the end of the file. */
  function FirstNonDigit(s: seq<char>, k: nat): (e: nat)
    requires k <= |s|
    ensures k <= e <= |s| && !DigitAt(s, e)
    decreases |s| - k
  {
    if !DigitAt(s, k) then k else FirstNonDigit(s, k + 1)
  }

  /** A non-digit (or the end) preceded only by digits from `k` on is the first non-digit. */
  lemma {:induction false} FirstNonDigitIs(s: seq<char>, k: nat, e: nat)
    requires k <= e <= |s| && !DigitAt(s, e)
    requires forall j :: k <= j < e ==> IsDigit(s[j])
    ensures FirstNonDigit(s, k) == e
    decreases e - k
  {
    if k < e {
      FirstNonDigitIs(s, k + 1, e);
    }
  }

  /** Everything before the first non-digit is a digit. */
  lemma {:induction false} DigitsBefore(s: seq<char>, k: nat)
    requires k <= |s|
    ensures forall j :: k <= j < FirstNonDigit(s, k) ==> IsDigit(s[j])
    decreases |s| - k
  {
    if DigitAt(s, k) {
      DigitsBefore(s, k + 1);
    }
  }

  /**
   * The index where parse_int leaves the cursor after a token ending at `e`: the
   * separators other than newline are skipped, so it stops at a newline, at the
   * first character of the next token, or at the end of the file.
   */
  function SkipBlanks(s: seq<char>, e: nat): (j: nat)
    requires e <= |s|
    ensures e <= j <= |s| && !(SpaceAt(s, j) && s[j] != '\n')
    decreases |s| - e
  {
    if SpaceAt(s, e) && s[e] != '\n' then SkipBlanks(s, e + 1) else e
  }

  /** Everything skipped is a separator other than newline. */
  lemma {:induction false} BlanksSkipped(s: seq<char>, e: nat)
    requires e <= |s|
    ensures forall i :: e <= i < SkipBlanks(s, e) ==> IsSpace(s[i]) && s[i] != '\n'
    decreases |s| - e
  {
    if SpaceAt(s, e) && s[e] != '\n' {
      BlanksSkipped(s, e + 1);
    }
  }

  /** The index of the newline that ends the line containing `k`, or the end of the file. */
  function LineEnd(s: seq<char>, k: nat): (j: nat)
    requires k <= |s|
    ensures k <= j <= |s| && (j < |s| ==> s[j] == '\n')
    decreases |s| - k
  {
    if k == |s| || s[k] == '\n' then k else LineEnd(s, k + 1)
  }

  /** No newline comes before the end of the line. */
  lemma {:induction false} NoNewlineBefore(s: seq<char>, k: nat)
    requires k <= |s|
    ensures forall i :: k <= i < LineEnd(s, k) ==> s[i] != '\n'
    decreases |s| - k
  {
    if k < |s| && s[k] != '\n' {
      NoNewlineBefore(s, k + 1);
    }
  }

  /** The end of a line is the first newline from `k` on (or the end of the file). */
  lemma {:induction false} LineEndIs(s: seq<char>, k: nat, j: nat)
    requires k <= j <= |s| && (j < |s| ==> s[j] == '\n')
    requires forall i :: k <= i < j ==> s[i] != '\n'
    ensures LineEnd(s, k) == j
    decreases j - k
  {
    if k < j {
      LineEndIs(s, k + 1, j);
    }
  }

  /** The comment-skipping loop of both readers (`while (c != '\n' && !feof(in)) c = getc(in);`). */
  method SkipLine(s: seq<char>, k: nat) returns (j: nat)
    requires k <= |s|
    ensures j == LineEnd(s, k)
  {
    j := k;
    while j < |s| && s[j] != '\n'
      invariant k <= j <= |s| && LineEnd(s, k) == LineEnd(s, j)
      decreases |s| - j
    {
      j := j + 1;
    }
  }

  /**
   * The token starting at `k`: its value and where the cursor stops after it.
   * It is read digit by digit until a separator; a character that is not a digit
   * before the separator (a separator in first position, the end of the file)
   * is an error at its index.
   */
  function ParseToken(s: seq<char>, k: nat): (r: Result<(nat, nat), ParseError>)
    requires k <= |s|
    ensures r.Success? <==> k < FirstNonDigit(s, k) && SpaceAt(s, FirstNonDigit(s, k))
    ensures r.Success? ==> k < r.value.1 && (DigitsBefore(s, k); r.value.0 == DecimalAt(s, k, FirstNonDigit(s, k)))
    ensures r.Success? ==> r.value.1 == SkipBlanks(s, FirstNonDigit(s, k))
    ensures r.Failure? ==> r.error.at == FirstNonDigit(s, k)
  {
    var e := FirstNonDigit(s, k);
    DigitsBefore(s, k);
    if k < e && SpaceAt(s, e) then Success((DecimalAt(s, k, e), SkipBlanks(s, e)))
    else Failure(NonDigit(e))
  }

  /** parse_int: read the token at `k` digit by digit (`val = val * 10 + digit`), then skip blanks. */
  method ParseInt(s: seq<char>, k: nat) returns (r: Result<(nat, nat), ParseError>)
    requires k <= |s|
    ensures r == ParseToken(s, k)
  {
    var val := 0;
    var i := k;
    while true
      invariant k <= i <= |s|
      invariant forall j :: k <= j < i ==> IsDigit(s[j])
      invariant i > k ==> !SpaceAt(s, i)
      invariant val == DecimalAt(s, k, i)
      decreases |s| - i
    {
      var cval := Getc(s, i) - ('0' as int);
      if cval < 0 || cval > 9 {
        if i < |s| {
          SeparatorNotDigit(s[i]);
        }
        FirstNonDigitIs(s, k, i);
        return Failure(NonDigit(i));
      }
      SeparatorNotDigit(s[i]);
      val := val * 10 + cval;
      i := i + 1;
      if SpaceAt(s, i) {
        break;
      }
    }
    SeparatorNotDigit(s[i]);
    FirstNonDigitIs(s, k, i);
    while i < |s| && s[i] != '\n' && IsSpace(s[i])
      invariant k < i <= |s| && FirstNonDigit(s, k) <= i
      invariant SkipBlanks(s, FirstNonDigit(s, k)) == SkipBlanks(s, i)
      decreases |s| - i
    {
      i := i + 1;
    }
    return Success((val, i));
  }

  /**
   * The values of the line from `k` on, read token after token until the
   * cursor is on the newline, and the index of that newline.
   */
  function LineValues(s: seq<char>, k: nat): (r: Result<(seq<nat>, nat), ParseError>)
    requires k <= |s|
    ensures r.Success? ==> k <= r.value.1 && NewlineAt(s, r.value.1)
    ensures r.Success? && !NewlineAt(s, k) ==> |r.value.0| > 0
    decreases |s| - k
  {
    if NewlineAt(s, k) then Success(([], k))
    else match ParseToken(s, k)
      case Failure(e) => Failure(e)
      case Success((v, next)) => Cons([v], LineValues(s, next))
  }

  /** One token of a line: the line's values are that token's value followed by the values after it. */
  lemma LineValuesStep(s: seq<char>, k: nat, v: nat, next: nat)
    requires k <= |s| && !NewlineAt(s, k) && ParseToken(s, k) == Success((v, next))
    ensures next <= |s| && LineValues(s, k) == Cons([v], LineValues(s, next))
  {
  }

  /** A token followed by the rest of a successfully read line. */
  lemma LineConsStep(s: seq<char>, k: nat, v: nat, next: nat, ws: seq<nat>, j: nat)
    requires k <= |s| && !NewlineAt(s, k) && ParseToken(s, k) == Success((v, next))
    requires next <= |s| && LineValues(s, next) == Success((ws, j))
    ensures LineValues(s, k) == Success(([v] + ws, j))
  {
    LineValuesStep(s, k, v, next);
  }

  /** A non-empty sequence is its head followed by its tail. */
  lemma HeadTail<T>(xs: seq<T>)
    requires xs != []
    ensures [xs[0]] + xs[1..] == xs
  {
  }

  /** Put the values `vs` in front of a successful result. */
  function Cons(vs: seq<nat>, r: Result<(seq<nat>, nat), ParseError>): Result<(seq<nat>, nat), ParseError>
  {
    match r
    case Failure(e) => Failure(e)
    case Success((ws, j)) => Success((vs + ws, j))
  }

  lemma ConsNil(r: Result<(seq<nat>, nat), ParseError>)
    ensures Cons([], r) == r
  {
    if r.Success? {
      assert [] + r.value.0 == r.value.0;
    }
  }

  lemma ConsCons(us: seq<nat>, vs: seq<nat>, r: Result<(seq<nat>, nat), ParseError>)
    ensures Cons(us, Cons(vs, r)) == Cons(us + vs, r)
  {
    if r.Success? {
      assert us + (vs + r.value.0) == (us + vs) + r.value.0;
    }
  }

  /**
   * The token loop of both readers (`while (c != '\n') parse_int(c, in)`): the
   * values of the line starting at `k` and the index of its newline.
   */
  method ReadLine(s: seq<char>, k: nat) returns (r: Result<(seq<nat>, nat), ParseError>)
    requires k <= |s|
    ensures r == LineValues(s, k)
  {
    var vals: seq<nat> := [];
    var i := k;
    ConsNil(LineValues(s, k));
    while i == |s| || s[i] != '\n'
      invariant k <= i <= |s|
      invariant LineValues(s, k) == Cons(vals, LineValues(s, i))
      decreases |s| - i
    {
      var tok := ParseInt(s, i);
      if tok.Failure? {
        return Failure(tok.error);
      }
      var (v, next) := tok.value;
      LineValuesStep(s, i, v, next);
      ConsCons(vals, [v], LineValues(s, next));
      vals := vals + [v];
      i := next;
    }
    assert LineValues(s, i) == Success(([], i));
    assert vals + [] == vals;
    return Success((vals, i));
  }

  /** The canonical text of a line: the values in decimal, separated by single blanks, then a newline. */
  function RenderLine(vs: seq<nat>): (line: seq<char>)
    ensures |line| > 0 && line[|line| - 1] == '\n'
    ensures vs != [] ==> IsDigit(line[0])
    ensures vs == [] ==> line == "\n"
  {
    if vs == [] then "\n"
    else Render(vs[0]) + (if |vs| == 1 then [] else [' ']) + RenderLine(vs[1..])
  }

  /** The text `w` occurs in `s` at index `k`. */
  predicate Occurs(s: seq<char>, k: nat, w: seq<char>)
  {
    k + |w| <= |s| && forall i :: 0 <= i < |w| ==> s[k + i] == w[i]
  }

  /** An occurrence of a concatenation is an occurrence of each part, one after the other. */
  lemma OccursSplit(s: seq<char>, k: nat, a: seq<char>, b: seq<char>)
    requires Occurs(s, k, a + b)
    ensures Occurs(s, k, a) && Occurs(s, k + |a|, b)
  {
    forall i | 0 <= i < |a| ensures s[k + i] == a[i] {
      assert (a + b)[i] == a[i];
    }
    forall i | 0 <= i < |b| ensures s[k + |a| + i] == b[i] {
      assert s[k + (|a| + i)] == (a + b)[|a| + i];
    }
  }

  /** The digits of a rendered number, read where they occur, give back the number. */
  lemma {:induction false} ReadRendered(s: seq<char>, k: nat, n: nat)
    requires Occurs(s, k, Render(n))
    ensures forall j :: k <= j < k + |Render(n)| ==> IsDigit(s[j])
    ensures DecimalAt(s, k, k + |Render(n)|) == n
  {
    var ds := Render(n);
    forall j | k <= j < k + |ds| ensures IsDigit(s[j]) {
      assert s[k + (j - k)] == ds[j - k];
    }
    if n >= 10 {
      var hd := Render(n / 10);
      assert ds == hd + [DigitChar(n % 10)];
      OccursSplit(s, k, hd, [DigitChar(n % 10)]);
      ReadRendered(s, k, n / 10);
      assert s[k + |hd| + 0] == [DigitChar(n % 10)][0];
    } else {
      assert s[k + 0] == ds[0];
    }
  }

  /** A rendered number followed by a separator is read back as that number. */
  lemma ParseRendered(s: seq<char>, k: nat, n: nat)
    requires Occurs(s, k, Render(n)) && SpaceAt(s, k + |Render(n)|)
    ensures ParseToken(s, k) == Success((n, SkipBlanks(s, k + |Render(n)|)))
  {
    ReadRendered(s, k, n);
    SeparatorNotDigit(s[k + |Render(n)|]);
    FirstNonDigitIs(s, k, k + |Render(n)|);
  }

  /**
   * A line that starts with a rendered number, then either its newline or one
   * blank and the next token: the number is read back and the cursor stops where
   * `rest` begins.
   */
  lemma HeadOfLine(s: seq<char>, k: nat, n: nat, sep: seq<char>, rest: seq<char>)
    requires Occurs(s, k, Render(n) + sep + rest) && rest != []
    requires (sep == [] && rest[0] == '\n') || (sep == [' '] && IsDigit(rest[0]))
    ensures ParseToken(s, k) == Success((n, k + |Render(n)| + |sep|))
    ensures Occurs(s, k + |Render(n)| + |sep|, rest) && DigitAt(s, k)
  {
    var ds := Render(n);
    OccursSplit(s, k, ds + sep, rest);
    OccursSplit(s, k, ds, sep);
    var e := k + |ds|;
    assert s[e + |sep| + 0] == rest[0];
    if sep == [] {
      assert s[e] == '\n';
    } else {
      assert s[e + 0] == sep[0] == ' ';
      assert SkipBlanks(s, e + 1) == e + 1;
    }
    ParseRendered(s, k, n);
    assert s[k + 0] == ds[0];
  }

  /** A rendered line is read back as its values, up to its newline. */
  lemma {:induction false} LineRoundTrip(s: seq<char>, k: nat, vs: seq<nat>)
    requires Occurs(s, k, RenderLine(vs))
    ensures LineValues(s, k) == Success((vs, k + |RenderLine(vs)| - 1))
    decreases |vs|
  {
    if vs == [] {
      assert s[k + 0] == RenderLine(vs)[0] == '\n';
    } else {
      var rest := RenderLine(vs[1..]);
      var sep: seq<char> := if |vs| == 1 then [] else [' '];
      assert RenderLine(vs) == Render(vs[0]) + sep + rest;
      HeadOfLine(s, k, vs[0], sep, rest);
      var next := k + |Render(vs[0])| + |sep|;
      LineRoundTrip(s, next, vs[1..]);
      LineConsStep(s, k, vs[0], next, vs[1..], next + |rest| - 1);
      HeadTail(vs);
    }
  }
}
