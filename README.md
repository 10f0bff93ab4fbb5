# fimcp core in Dafny

A model of two parts of fimcp, the constraint-programming itemset miner
built on Gecode.

The first part is the reified-implication linear constraint of
`src/common/constraint_linearPlus.cpp`:

- `imply_linear` and `imply_linear2` post `b -> (a_0*x_0 + ... + a_{n-1}*x_{n-1}  r  c)`
  over Boolean variables. They leave early when `b` is fixed, eliminate the
  fixed variables, rewrite the strict relations, settle the empty sum, check
  for overflow and dispatch to the threshold propagator;
- the propagator `RImpGqBoolInt` for `b -> (x_0 + ... + x_{n-1} >= c)`: `post`,
  the creation and cloning constructors, `copy`, `advise` and `propagate`.

The second part is the data readers:

- `Reader_SSV` (`is_space`, `parse_int`, `read`) reads lines of blank-separated
  natural numbers into rows;
- `Reader_Eliz::read` reads transactions (item lists, optionally ended by a
  0/1 class label) into a 0/1 matrix in two passes.

Modules and files:

| file | module | what |
|---|---|---|
| wrappers.dfy | Wrappers | `Option` and `Result` |
| seqs.dfy | Seqs | sums, filters and maps over sequences, swap-with-last removal |
| counting.dfy | Counting | three-valued store states, counts, completions (total assignments that agree with the store) |
| store.dfy | BoolStore | Boolean views (a variable or its complement) and the store `Space` |
| threshold.dfy | Threshold | class `RImpGqBoolInt` |
| linear.dfy | ImplyLinear | `imply_linear`, `imply_linear2` and their specification `Plan` |
| tokenizer.dfy | Tokenizer | `is_space`, `parse_int`, one line of tokens |
| ssv.dfy | Ssv | class `SsvReader` (`Reader_SSV::read`) |
| eliz.dfy | Eliz | class `ElizReader` (`Reader_Eliz::read`) |

Meaning is stated with completions. A completion `full` is a total
assignment of the store that agrees with every fixed variable. The
constraint `sum >= c` "holds" for a completion when the number of views true
under it reaches `c`. Every pruning and every rewrite is proved to keep the
set of completions that satisfy the constraint, with one exception: propagate's
rewrite with `b` one, as written, does not (see "## Findings"), while
`PropagateNormalized`, the corrected rewrite, does. Propagate's subsumption with
`b` unknown relies on the engine's scheduling (see "## Left out").

The store is `Space.dom: seq<Tri>` (Unknown, One or Zero per variable). The
only change the core makes to it is fixing `b` to zero (`b.zero_none`).

The propagator keeps two ghost fields, `c0` (the threshold it was created
with) and `seen` (what its advisors have reported per view). Its invariant
`Valid()` is `n_s == #Unknown(seen)` and `c == c0 - #One(seen)`.

In the readers, the file is a `seq<char>`. The index `|s|` plays the part of
`getc` returning EOF: it is neither a digit nor a separator. A read that
`exit(1)`s in the source returns the parse error as a value.

## Model

| member | source | states |
|---|---|---|
| Counting.CompletionBounds | src/common/constraint_linearPlus.cpp:196-204 | Under any completion, the number of true views lies between `#One` and `#One + #Unknown`. These are the bounds that advise's counters track. |
| Counting.ThresholdReachable | src/common/constraint_linearPlus.cpp:158-161 | Some completion reaches `c0` iff `#Unknown >= c0 - #One`. So `n_s < c` means no completion reaches the threshold. |
| Counting.ThresholdEntailed | src/common/constraint_linearPlus.cpp:162-166 | Every completion reaches `c0` iff `#One >= c0`. So `c <= 0` means the constraint is entailed. |
| Counting.CountsAfterFix | src/common/constraint_linearPlus.cpp:197-199 | Fixing one unknown view takes exactly one off `#Unknown`. It adds one to `#One` only when the view became one. |
| Counting.Optimistic | src/common/constraint_linearPlus.cpp:158 | A completion exists that makes every unknown view true. Its count is `#One + #Unknown`. |
| Counting.Pessimistic | src/common/constraint_linearPlus.cpp:163 | A completion exists that makes every unknown view false. Its count is `#One`. |
| BoolStore.UnassignedViews | src/common/constraint_linearPlus.cpp:150-156 | The views left by the elimination are views of `x` that are unknown. Their number is `#Unknown` of `x`. |
| BoolStore.SplitFixedViews | src/common/constraint_linearPlus.cpp:150-156 | Under a completion, the true views of `x` are the views fixed one plus the true views among the unassigned ones. This is why post lowers `c` by one per view fixed one. |
| BoolStore.Space.ZeroNone | src/common/constraint_linearPlus.cpp:159 | `b.zero_none`: the store changes only at `b`, which becomes zero. |
| Threshold.RImpGqBoolInt.Valid | src/common/constraint_linearPlus.cpp:196-199 | The invariant advise keeps on `n_s` and `c`. It implies that `n_s` is non-negative and that the undecided views plus the views fixed one (`c0 - c`) never exceed `|x|`. |
| Threshold.RImpGqBoolInt.constructor | src/common/constraint_linearPlus.cpp:178-181 | Creation: `x`, `b` and `c` are stored as given, `n_s = |x|`, nothing has been reported yet, and `Valid()` holds. |
| Threshold.RImpGqBoolInt.Clone | src/common/constraint_linearPlus.cpp:183-186 | Cloning copies `b`, `x`, `c` and `n_s` (and the ghost history). |
| Threshold.RImpGqBoolInt.Copy | src/common/constraint_linearPlus.cpp:188-192 | copy returns a fresh propagator equal in every field. `Valid()` carries over. |
| Threshold.RImpGqBoolInt.Post | src/common/constraint_linearPlus.cpp:144-172 | See the note on Post below the table. |
| Threshold.RImpGqBoolInt.DropFixed | src/common/constraint_linearPlus.cpp:149-156 | The swap-with-last loop: the first `n_x` entries are a permutation of the unknown views, and `c` is lowered by the number of views fixed one. |
| Threshold.RImpGqBoolInt.Settle | src/common/constraint_linearPlus.cpp:157-171 | After the elimination, with `n_x` live views and threshold `c`: see the note on Settle below the table. |
| Threshold.RImpGqBoolInt.Advise | src/common/constraint_linearPlus.cpp:194-204 | See the note on Advise below the table. |
| Threshold.RImpGqBoolInt.Propagate | src/common/constraint_linearPlus.cpp:206-221 | See the note on Propagate below the table. |
| Threshold.RImpGqBoolInt.PropagateNormalized | src/common/constraint_linearPlus.cpp:214-217 | Corrected rewrite: with `b` one, it rewrites to the unassigned views with threshold `c`. That is equivalent, under every completion, to the original `sum(x) >= c0`. The other branches are as in Propagate, with the same soundness of the `n_s < c` and `c <= 0` subsumptions. |
| Threshold.PostExitsSound | src/common/constraint_linearPlus.cpp:157-166 | The two early exits of post are sound: `n_x < c` means every completion falls short, and `c <= 0` means every completion reaches `c`. |
| Threshold.PostCreateFaithful | src/common/constraint_linearPlus.cpp:167-171 | The created propagator (any permutation of the unassigned views, threshold `c - #One`) is equivalent to the posted `sum(x) >= c` under every completion. |
| Threshold.NormalizedRewriteFaithful | src/common/constraint_linearPlus.cpp:215-217 | Dropping the fixed views and keeping the lowered `c` gives a sum equivalent to `sum(x) >= c0`. |
| Threshold.RewriteAsWrittenOvercounts | src/common/constraint_linearPlus.cpp:215-217 | Counterexample: `x = [x0, x1, x2]` with `x0` fixed one, `c0 = 2`, so `c = 1`. The rewrite keeps `x0` in `x` with `c = 1`, and the completion `[1, 0, 0]` then satisfies `sum(x) >= c` but not `sum(x) >= c0`. |
| Threshold.DropFixedStep | src/common/constraint_linearPlus.cpp:151-155 | One turn of the elimination loop keeps its invariant: the suffix holds exactly the unassigned views of the suffix seen so far, and `c` is adjusted by one per view fixed one. |
| ImplyLinear.ImplyLinear | src/common/constraint_linearPlus.cpp:21-37 | A size mismatch throws before anything else and changes nothing. A failed space returns with no effect. Otherwise the outcome is `Plan` of the terms built from `a` and `x`. A created propagator is equivalent to `b`'s constraint under every completion. |
| ImplyLinear.TermsOf | src/common/constraint_linearPlus.cpp:32-34 | The term array: `t[i] = a[i] * x[i]`, position by position. |
| ImplyLinear.ImplyLinear2 | src/common/constraint_linearPlus.cpp:44-142 | See the note on ImplyLinear2 below the table. |
| ImplyLinear.Plan | src/common/constraint_linearPlus.cpp:49-56 | The early exits come before any limit check: `b` one gives the plain post on the terms as given, `b` zero gives no effect, and `c` out of limits throws. |
| ImplyLinear.PlanSound | src/common/constraint_linearPlus.cpp:44-142 | With `b` unknown, under every completion: forcing `b` to zero happens only when the linear constraint fails, and ignoring it only when it holds. A posted threshold holds exactly when the linear constraint does. |
| ImplyLinear.EliminatedSound | src/common/constraint_linearPlus.cpp:67-141 | The same three soundness statements for the stages after the elimination, on the remaining terms and `d`. |
| ImplyLinear.EliminateAssigned | src/common/constraint_linearPlus.cpp:60-66 | The elimination loop over `t`: the first `n` entries are a permutation of the unassigned terms, and `d = c - sum of a` over the terms fixed one. |
| ImplyLinear.EliminateAt | src/common/constraint_linearPlus.cpp:62-65 | One step: a fixed term is overwritten by the last and `n` decreases by one; `d` drops by `a` only when the term is one. |
| ImplyLinear.EliminateStep | src/common/constraint_linearPlus.cpp:61-66 | One turn of the elimination loop keeps its invariant over the suffix already scanned. |
| ImplyLinear.SplitFixedTerms | src/common/constraint_linearPlus.cpp:60-67 | Under a completion, the linear sum is the fixed weight plus the sum over the unassigned terms. So eliminating with `d` keeps the meaning. |
| ImplyLinear.EliminatedMeaning | src/common/constraint_linearPlus.cpp:58-67 | `sum(a*x) r c` holds iff `sum(rem) r d` holds, for any permutation `rem` of the unassigned terms. |
| ImplyLinear.Canonical | src/common/constraint_linearPlus.cpp:69-79 | LE becomes LQ with `d - 1`, GR becomes GQ with `d + 1`, and EQ/NQ/LQ/GQ stay unchanged. The result holds for exactly the same sums. Any other relation fails with UnknownRelation, and only such a relation fails. |
| ImplyLinear.Normalize | src/common/constraint_linearPlus.cpp:86 | normalize: positive terms, and negated negative terms, all with positive coefficients, drawn from the input. The unit flag is true iff every coefficient is -1, 0 or 1. |
| ImplyLinear.NormalizeSum | src/common/constraint_linearPlus.cpp:86 | Normalising keeps the sum: positive part minus negative part. |
| ImplyLinear.EmptySumFails | src/common/constraint_linearPlus.cpp:88-96 | With no terms left, the relation fails iff `0 r c` is false. |
| ImplyLinear.OverflowBounds | src/common/constraint_linearPlus.cpp:103-115 | The two loops compute `sl = c + sum(t_n.a)` and `su = c - sum(t_p.a)`. |
| ImplyLinear.PositiveSumBounds | src/common/constraint_linearPlus.cpp:103-115 | With positive coefficients, the sum is between 0 and the sum of the coefficients. |
| ImplyLinear.SlackWithinBounds | src/common/constraint_linearPlus.cpp:103-115 | For every completion, `c - sum` lies between `su` and `sl`. So the two limit checks bound every slack the propagator can see. |
| ImplyLinear.PlanNormal | src/common/constraint_linearPlus.cpp:88-141 | Only an all-positive unit GQ or LQ posts, on as many views as positive terms. Forcing zero or ignoring happens only with no terms left. |
| ImplyLinear.PlanUnit | src/common/constraint_linearPlus.cpp:117-138 | GQ and LQ post on `n_p` views. EQ and NQ throw "wrong relation". |
| ImplyLinear.NormalMeaning | src/common/constraint_linearPlus.cpp:82-141 | For the normalised terms: a forced zero means `sum r c` fails, ignoring means it holds, and a posted threshold is equivalent to `sum r c`. |
| ImplyLinear.UnitSumCounts | src/common/constraint_linearPlus.cpp:119-126 | For unit terms, the linear sum is the number of true views on the variables themselves. |
| ImplyLinear.ComplementCount | src/common/constraint_linearPlus.cpp:128-134 | The true complement views number `n_p` minus the true views. |
| ImplyLinear.ComplementRewrite | src/common/constraint_linearPlus.cpp:128-134 | `sum(x) <= c` iff `#not(x) >= n_p - c`, for every completion. |
| ImplyLinear.PostUnit | src/common/constraint_linearPlus.cpp:117-138 | The dispatch: the outcome is `PlanUnit`, and a created propagator is equivalent to the posted threshold. |
| ImplyLinear.Dispatch | src/common/constraint_linearPlus.cpp:88-141 | The outcome is `PlanNormal`. The store changes only at `b` and only towards zero. |
| ImplyLinear.PlanEliminated | src/common/constraint_linearPlus.cpp:67-86 | The outcome once the fixed terms are gone: `d` out of limits throws, and an unrecognised relation with `d` in limits throws "unknown relation". |
| ImplyLinear.PostEliminated | src/common/constraint_linearPlus.cpp:67-141 | The outcome is `PlanEliminated`. A created propagator is equivalent to `sum(ts) r d`. |
| ImplyLinear.EliminateAndPost | src/common/constraint_linearPlus.cpp:58-142 | The elimination followed by the rest of the post. A created propagator is equivalent to the original linear constraint. |
| Tokenizer.Getc | src/common/reader_ssv.cpp:75 | getc at an index: EOF exactly at the end of the file, the character otherwise. |
| Tokenizer.IsSpace | src/common/reader_ssv.cpp:58-60 | is_space: the five separators. No separator is a digit. |
| Tokenizer.SeparatorNotDigit | src/common/reader_ssv.cpp:58-60 | is_space: no separator (`' '`, `'\n'`, `'\t'`, `','`, `'\r'`) is a digit. A character is a digit iff `c - '0'` is in 0..9. |
| Tokenizer.FirstNonDigit | src/common/reader_ssv.cpp:107-116 | The end of a token: the first index at or after `k` that is not a digit (possibly EOF). |
| Tokenizer.DigitsBefore | src/common/reader_ssv.cpp:107-116 | Every character before the end of the token is a digit. |
| Tokenizer.FirstNonDigitIs | src/common/reader_ssv.cpp:107-116 | Any `e` with only digits before it and a non-digit at it is the end of the token. |
| Tokenizer.SkipBlanks | src/common/reader_ssv.cpp:117-119 | The skip after a token stops at a newline, at a non-separator or at EOF. |
| Tokenizer.BlanksSkipped | src/common/reader_ssv.cpp:117-119 | Everything skipped is a separator other than `'\n'`. |
| Tokenizer.ParseToken | src/common/reader_ssv.cpp:104-121 | See the note on ParseToken below the table. |
| Tokenizer.ParseInt | src/common/reader_ssv.cpp:104-121 | The loop `val = val*10 + cval` followed by the skip loop computes ParseToken. |
| Tokenizer.ReadRendered | src/common/reader_ssv.cpp:113-114 | The digits of `n` written in decimal read back as `n`. |
| Tokenizer.ParseRendered | src/common/reader_ssv.cpp:104-121 | The decimal text of `n` followed by a separator parses to `n`. |
| Tokenizer.LineValues | src/common/reader_ssv.cpp:79-82 | The values of one line: a successful read ends at the line's newline, and a line not starting at its newline gives at least one value. Its unfolding, a first token followed by the rest of the line, is the helper lemma LineValuesStep. |
| Tokenizer.ReadLine | src/common/reader_ssv.cpp:78-83 | The token loop of read computes LineValues. |
| Tokenizer.LineRoundTrip | src/common/reader_ssv.cpp:78-83 | A line written as the decimal values separated by single blanks and ended by `'\n'` reads back as exactly those values, ending at its newline. |
| Tokenizer.LineEnd | src/common/reader_ssv.cpp:86-87 | The skip of a comment line stops at the first newline or at EOF. |
| Tokenizer.NoNewlineBefore | src/common/reader_ssv.cpp:86-87 | No newline comes before that stop. |
| Tokenizer.LineEndIs | src/common/reader_ssv.cpp:86-87 | Any index with no newline before it and a newline (or EOF) at it is that stop. |
| Tokenizer.SkipLine | src/common/reader_ssv.cpp:86-87 | The loop `while (c != '\n' && !feof)` computes LineEnd. |
| Ssv.SsvRows | src/common/reader_ssv.cpp:74-89 | The rows of a file from index `k`; every row read is non-empty. A data line gives its row and then the rows after its newline, a line starting with `'@'`, `'%'`, `' '` or `'\n'` gives no row, and a data line that does not parse fails the read with its error (the helper lemmas SsvRowsData, SsvRowsSkip and SsvRowsFail unfold these cases). |
| Ssv.SkippedLead | src/common/reader_ssv.cpp:76 | The first characters that make read skip a line. None can start a number, and all but `'@'` and `'%'` are separators. |
| Ssv.SsvReader.constructor | src/common/reader_ssv.cpp:53 | A new reader has no rows. |
| Ssv.SsvReader.Read | src/common/reader_ssv.cpp:66-101 | On success, `data` is the old data followed by the file's rows in file order. On a parse error, the error is returned and `data` only grew. |
| Ssv.ReadNextLine | src/common/reader_ssv.cpp:75-88 | One turn of read's outer loop: a data line gives one row, a skipped line none, and the rest of the rows are unchanged. |
| Ssv.CommentSkipped | src/common/reader_ssv.cpp:84-88 | Inserting a comment line, or a line starting with a blank or an empty line, does not change the rows read. |
| Ssv.SsvRoundTrip | src/common/reader_ssv.cpp:74-89 | Non-empty rows written one per line read back as exactly those rows. |
| Eliz.ElizLines | src/common/reader_eliz.cpp:71-88 | The transactions of a file: see the note on ElizLines below the table. |
| Eliz.Skipped | src/common/reader_eliz.cpp:73 | The skip test of both passes. Before the first transaction it is Reader_SSV's test. After it, it is that test minus the empty line. |
| Eliz.Widen | src/common/reader_eliz.cpp:82-83 | `nr_i` after one line: never below its old value, and above every value of the line. |
| Eliz.NrItems | src/common/reader_eliz.cpp:68-88 | `nr_i` after the first pass: above every value read. |
| Eliz.HasClasses | src/common/reader_eliz.cpp:84-85 | `has_classes` after the first pass. When it holds, every transaction is class-labelled. |
| Eliz.ElizLinesHead | src/common/reader_eliz.cpp:98-119 | In the second pass, the data line at the cursor is transaction `cur_t`, so `cur_t < nr_t` at every write. |
| Eliz.WidenBound | src/common/reader_eliz.cpp:82-83 | After a line, `nr_i` is the least bound that is at least its old value and above every value of the line. |
| Eliz.NrItemsBound | src/common/reader_eliz.cpp:68-88 | `nr_i` exceeds every value read, the class values included. It is 0 or one more than some value. |
| Eliz.HasClassesAll | src/common/reader_eliz.cpp:84-85 | has_classes holds iff the last value of every non-empty transaction is 0 or 1. |
| Eliz.ScanLine | src/common/reader_eliz.cpp:80-86 | The first pass's token loop on one line: see the note on ScanLine below the table. |
| Eliz.FirstPass | src/common/reader_eliz.cpp:67-88 | `nr_t` is the number of transactions, `nr_i` is `NrItems` and `has_classes` is `HasClasses`, or the first parse error is returned. |
| Eliz.Items | src/common/reader_eliz.cpp:109-111 | The items written for a transaction are its values, minus the last when the file has class labels. |
| Eliz.FillLine | src/common/reader_eliz.cpp:107-116 | See the note on FillLine below the table. |
| Eliz.FillNextLine | src/common/reader_eliz.cpp:99-118 | One turn of the second pass's outer loop: a skipped line writes nothing, and a data line fills transaction `cur_t` and advances `cur_t`. |
| Eliz.SecondPass | src/common/reader_eliz.cpp:96-119 | On the zero-filled `data` and `classes`: `data[t][x]` is set iff `x` is an item of transaction `t`. `classes[t]` holds iff the file has labels and the label of `t` is nonzero. |
| Eliz.ElizReader.constructor | src/common/reader_eliz.cpp:55 | A new reader has an empty matrix and no class labels. |
| Eliz.ElizReader.Read | src/common/reader_eliz.cpp:61-132 | See the note on ElizReader.Read below the table. |
| Eliz.ElizAgreesWithSsv | src/common/reader_eliz.cpp:49-50 | Reader_Eliz extends Reader_SSV: on a file with no empty line after another line, both read the same rows. |

Notes on the longer contracts:

- **Threshold.RImpGqBoolInt.Post.** Let `c' = c - #One(x)`.
  - If `#Unknown(x) < c'`, `b` is fixed to zero and nothing is created.
  - If `c' <= 0`, nothing changes and nothing is created.
  - Otherwise a fresh, valid propagator is created whose `x` is a permutation of the unknown views, with `c = c'` and `n_s = #Unknown >= c'`.
  - Whenever a propagator is created, it is equivalent to `sum(x) >= c` under every completion.
- **Threshold.RImpGqBoolInt.Settle.**
  - If `n_x < c`, `b` is fixed to zero.
  - If `c <= 0`, nothing happens.
  - Otherwise a valid propagator is created on exactly these views, with `n_s = n_x`, and it has seen every current value.
- **Threshold.RImpGqBoolInt.Advise.**
  - `c` drops by one only for a view that became one, and `n_s` drops by exactly one.
  - `Valid()` is kept.
  - It returns NOFIX iff `n_s < c` or `c <= 0`.
  - `c` and `n_s - c` never increase, so once NOFIX is returned it stays.
- **Threshold.RImpGqBoolInt.Propagate.** When `b` is unknown, the propagator is subsumed, and `b` is set to zero exactly when `n_s < c`. In that case no completion of the advised states reaches `c0`. When `c <= 0` instead, every completion of the advised states reaches `c0`, so dropping the constraint is sound. When `b` is one, it rewrites to `sum(x) >= c` with the current `x` and `c`. When `b` is zero, it is subsumed and nothing changes. `b` is never set to one.
- **ImplyLinear.ImplyLinear2.** The outcome is `Plan` of the store and terms before the call, and the store changes only at `b` and only to zero. A created propagator is on `b` and valid, has been advised of the store, and is equivalent to `sum(a*x) r c` under every completion. When the post succeeds and creates nothing, `b` stays unknown exactly when the linear constraint holds under every completion.
- **Tokenizer.ParseToken.** The token succeeds iff it is non-empty and ends at a separator. The value is the decimal value of its digits, and the cursor moves past the separators that follow (not past `'\n'`). Otherwise the error is at the first non-digit, which may be EOF.
- **Eliz.ElizLines.**
  - Lines starting with `'@'`, `'%'` or `' '` are skipped.
  - Empty lines are skipped only before the first transaction, so the first transaction is never empty.
  - Every other line is one transaction, and a line that does not parse fails the read with its error.
  - The helper lemmas ElizLinesSkip, ElizLinesData and ElizLinesFail unfold these cases.
- **Eliz.ScanLine.** `nr_i` is widened by the line's values, and `has_classes` is and-ed with the test on the line's last value. It ends at the line's newline, or returns the parse error.
- **Eliz.FillLine.**
  - Only row `t` changes. Each value sets its cell, except the last one when the file has labels.
  - That last value sets `classes[t]` to `x != 0`.
  - Every write is in bounds.
- **Eliz.ElizReader.Read.**
  - On a parse error, the error is returned and nothing changes.
  - Otherwise `data` is `nr_t x nr_i`, and `data[t][x]` holds iff `x` is an item of transaction `t`.
  - With class labels, `classes` has `nr_t` entries holding the labels. Without them, `classes` is left as it was.

## Left out

- Gecode itself is not part of this model. This covers:
  - advisors and their subscriptions;
  - scheduling and the `ES_*` status codes beyond the values modelled;
  - `Region` and `ViewArray` allocation;
  - the plain `post` for a fixed `b` and `GqBoolInt::post` for the rewrite. These are returned as outcome values (`PlainPost`, `Rewrite`), not carried out.
- ImplyLinear.Normalize: Gecode's `normalize` also merges repeated variables. The model only drops zero coefficients and splits the terms by sign.
- ImplyLinear.Normalize: the model also leaves out `normalize`'s own coefficient-limit check.
- ImplyLinear.Normalize: the order of the terms after normalisation is not modelled; only which terms there are.
- ImplyLinear.ImplyLinear2: `double d` is an unbounded integer. `Limits` is a parameter (its bounds are not Gecode's constants).
- ImplyLinear.ImplyLinear2: `GECODE_ME_FAIL` / `GECODE_ES_FAIL` on a failed store are not modelled. Fixing an unknown `b` to zero cannot fail.
- The header describes coefficients 0, 1 or -1. The code, which the model follows, throws "non unary" on any -1 that survives normalisation.
- Threshold.RImpGqBoolInt.Propagate: with `b` unknown and `n_s >= c > 0` the constraint is still live, yet propagate ends subsumed. This is sound only because the engine runs propagate with `b` unknown after advise returned NOFIX, that is once `n_s < c` or `c <= 0`. That scheduling is not modelled, so the contract proves soundness for the `n_s < c` and `c <= 0` cases only.
- Threshold.RImpGqBoolInt.Advise: the advisor's delta is passed as the view's new value, with a ghost position. The subscription that produces it is not modelled.
- Tokenizer.ParseInt: `int val` is unbounded. The 32-bit overflow of `val*10 + cval` on very long tokens is not modelled.
- Tokenizer.ParseInt: characters are Dafny chars. Signed `char` arithmetic on bytes above 127 is not modelled; such a byte is a non-digit either way.
- `fopen` failure, `fclose`, `rewind` and `exit(1)` are left out. A missing file is outside the model. A parse error is returned as a value, where the source prints it and exits.
- Ssv.SsvReader.Read: the source's `do { parse_int } while (c != '\n')` is modelled as ReadLine's `while` loop. They agree because a data line never starts at its newline.
- Eliz.ElizReader.Read: builds a fresh `nr_t x nr_i` matrix. Reading a second file into a reader that already holds data, which the source's `resize` would mix with the old rows, is not modelled.
- Eliz.ElizReader.Read: the item type is `bool`, the only instantiation used in the repository (`Reader_Eliz<bool>`). `classes[t] = x` therefore stores `x != 0`.

## Findings

| source | as written | input that shows it | evidently intended | confidence | as-written member | corrected member |
|---|---|---|---|---|---|---|
| src/common/constraint_linearPlus.cpp:215-217 | With `b` one, propagate rewrites to `GqBoolInt::post(x, c)` on the full view array `x`. But `c` has already been lowered by advise for every view fixed one, so those views are counted twice. | `x = [x0, x1, x2]`, `c0 = 2`, `x0` fixed to one (so `c = 1`), then `b` fixed to one. The rewrite posts `x0 + x1 + x2 >= 1`, which `x0 = 1, x1 = x2 = 0` satisfies, but the original `x0 + x1 + x2 >= 2` does not hold there. | Drop the views already fixed (as Gecode's own ReGqBoolInt::propagate does with `normalize()`) before rewriting with `c`, or rewrite with `c0`. | medium, not executed | Threshold.RewriteAsWrittenOvercounts | Threshold.RImpGqBoolInt.PropagateNormalized |
