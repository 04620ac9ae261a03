# qdimacs-splitter, modelled in Dafny

qdimacs-splitter reads a QDIMACS quantified Boolean formula and writes
2^depth variants of it. Each variant fixes the first `depth` prefix
variables by unit clauses, one variant per truth assignment, and its file
name spells that assignment as `t`/`f` characters. This project models the
library's reader and emitter and the program's splitting step, and proves
properties of them.

- `types.dfy` (module `QdimacsTypes`) holds the data model:
  - `Formula`: a signed prefix, where a negative entry is existential and a positive entry universal, plus a clause matrix and the two header counts.
  - `IntegerSplit` and `IntegerSplitKind`: the integer-split records.
  - `ParseError`: one variant per panic the reader can hit. It is returned through `Result`.
  - Decimal printing of integers.
- `writer.dfy` (module `Writer`) is `write_qdimacs`. An imperative method walks the prefix with the loop-carried `lastQ` and builds each clause line with an inner loop. It is proved against `DocumentText`, a specification that groups the prefix into maximal runs of one sign (`Runs`). Lemmas about `Runs` show that:
  - the grouping is maximal, loses nothing and is the only such grouping;
  - in a prefix without zero entries the runs alternate between existential and universal blocks, and each run becomes one line closed by exactly one ` 0`.
- `reader.dfy` (module `Reader`) is `parse_qdimacs`. The grammar's parse tree arrives as a sequence of tagged lines (`Line`). The method `ParseQdimacs` is the walk over them, with inner loops for quantifier lines, clause lines and integer-split lines. It is proved equal to `Parse`, which is built from `PrefixOf`, `MatrixOf`, `HeaderOf` and `SplitsOf`. The integer-split rules (`SplitOf`) include:
  - the 0/1 digit mapping for `=` targets;
  - the single integer target for `<` and `>`;
  - every panic.
- `roundtrip.dfy` (module `RoundTrip`) cuts the emitted text at its line breaks into tagged lines: one problem line, one quantifier line per block, one clause line per clause. For a formula without zero prefix entries or zero literals these are the lines the grammar would tag. It proves that reading those lines gives back the formula that was written.
- `splitter.dfy` (module `Splitter`) covers `assume_prefix_vars` and the split loop of `main`:
  - `AssumePrefixVars` clones the formula, flips the first `depth` entries to existential, appends the unit clauses and fills the name in a `char` array.
  - `SplitFormula` clamps the depth and calls it for every split index.
  - Lemmas show that the names are distinct, that every `t`/`f` string is covered, and that depth 0 gives back the input.

The model follows the code where a description of the tool would suggest otherwise:
- bit `i` of the split index (least significant first) decides prefix entry `i`;
- the header counts are copied, not recomputed, so the clause count no longer matches (`Splitter.HeaderUndercounts`);
- split variables stay in the prefix, as existentials;
- no clause is simplified;
- a requested depth beyond the prefix length is clamped, not rejected.

## Model

| member | source | states |
|---|---|---|
| `Writer.WriteQdimacs` | src/lib.rs:35-81 | The text written is the header, the prefix blocks and one line per clause (`DocumentText`). An empty prefix writes no quantifier line. For a prefix without zero entries, the text is one closed block line per maximal run. |
| `Writer.WritePrefixEntry` | src/lib.rs:45-63 | One prefix entry's output. A sign change opens a new `e`/`a` block, closing the previous one with ` 0` plus a newline unless nothing was open. A same-sign entry adds ` |q|`. |
| `Writer.WritePrefix` | src/lib.rs:43-68 | The prefix loop and the final close append exactly the prefix text of the whole prefix (`PrefixText`) to what was written before. |
| `Writer.WriteMatrix` | src/lib.rs:70-79 | The clause loop appends one clause line per clause, in matrix order (`MatrixText`), to what was written before. |
| `Writer.SpaceSeparated` | src/lib.rs:71-76 | Each literal of the clause in order, each followed by one space. |
| `Writer.OpenTextStep` | src/lib.rs:44-63 | One iteration of the prefix loop extends the open block text exactly as regrouping the longer prefix into runs does. |
| `Writer.RunsMaximal` | src/lib.rs:43-64 | The runs the loop's `last_q` test produces are maximal: each is non-empty, every entry has the run's sign, neighbours differ in sign, and together they list the prefix in order. |
| `Writer.RunsUnique` | src/lib.rs:43-64 | Any maximal grouping of the prefix is the emitter's grouping. |
| `Writer.AddEntryMaximal` | src/lib.rs:44-63 | One loop step keeps the grouping maximal and adds exactly the new entry at the end. |
| `Writer.DropLastEntryInverse` | src/lib.rs:44-63 | Removing the last entry of a maximal grouping gives a maximal grouping one entry shorter, and the loop step for that entry restores the original. |
| `Writer.OpenTextAdd` | src/lib.rs:46-62 | Adding an entry to the runs appends what the loop writes for it, given the previous entry: a same-sign entry adds ` |q|`, another sign closes the open block and opens a new one. |
| `Writer.BlocksAlternate` | src/lib.rs:46-55 | Without zero entries, every block is existential or universal, and consecutive blocks alternate between the two. |
| `Writer.PrefixTextIsBlocks` | src/lib.rs:43-68 | Without zero entries, the prefix text is exactly one `marker magnitudes 0` line per run: every opened block is closed once, and an empty prefix writes nothing. |
| `Writer.OpenTextClosed` | src/lib.rs:66-68 | The final ` 0` closes the last open block, which turns the open text into the closed block lines. |
| `Reader.ParseQdimacs` | src/lib.rs:83-185 | The walk returns `Parse(lines)`: the formula built from every line, or the error of the first integer-split line that panics. |
| `Reader.ReadQuantSet` | src/lib.rs:157-166 | A quantifier line appends its variables in order, each negated exactly when the marker is `e`. |
| `Reader.ReadClause` | src/lib.rs:167-174 | A clause line yields its literals in order. |
| `Reader.ParseIntSplit` | src/lib.rs:103-156 | The token walk of an integer-split line returns `SplitOf(tokens)`, error cases included. |
| `Reader.ReadVars` | src/lib.rs:109-115 | The operand variables are the maximal run of leading variable tokens, in order. |
| `Reader.ReadBitTargets` | src/lib.rs:124-144 | Every token after `=` becomes a 0/1 list; the first token with another character stops the line with `NonBinaryDigit`. |
| `Reader.SplitOf` | src/lib.rs:103-156 | A line is accepted exactly when a known operator (`<`, `>`, `=`) follows the variables and its targets are well formed: for `=` every remaining token is a 0/1 pattern, for `<` and `>` a next token reads as an integer. Otherwise it fails: `MissingToken` when no operator or no `<`/`>` target follows, `UnknownPattern` for any other operator, the first target's `NonBinaryDigit` for `=`, `NotAnInteger` for a `<`/`>` target that is not an integer. On success it holds the leading variables and the operator's kind. An `=` target holds one 0/1 list per remaining token; a `<` or `>` target holds exactly the next token's integer. |
| `Reader.BitDigits` | src/lib.rs:128-140 | Succeeds exactly when every character is `0` or `1`. It maps `1` to 1 and `0` to 0 position by position, and otherwise fails with `NonBinaryDigit`. |
| `Reader.LeadingPnums` | src/lib.rs:109-115 | The count of leading variable tokens: all tokens before it are variables, the token at it is not. |
| `Reader.BitTargetsOk` | src/lib.rs:124-144 | A successful `=` target list has one entry per token, each that token's digit list. |
| `Reader.BitTargetsFailurePersists` | src/lib.rs:134-136 | Once a `=` pattern fails, the line's result is that failure. |
| `Reader.TokenIntText` | src/lib.rs:145-150 | The integer reader inverts decimal printing: the text of `n` reads back as `n`. |
| `Reader.NatTextValue` | src/lib.rs:145-150 | Decimal digits of a natural number read back as that number. |
| `Reader.WalkAt` | src/lib.rs:95-177 | One iteration of the line loop extends the prefix, the matrix, the counts and the split records by exactly that line's contribution. |
| `Reader.SplitsFailurePersists` | src/lib.rs:103-156 | A line that panics decides the outcome: later lines do not change it. |
| `Reader.PrefixOfAppend` | src/lib.rs:157-166 | The prefix of two concatenated line sequences is the concatenation of their prefixes: quantifier lines keep their order. |
| `Reader.MatrixOfAppend` | src/lib.rs:167-174 | The matrix of two concatenated line sequences is the concatenation of their matrices: clauses keep the order of their lines. |
| `Reader.HeaderDefault` | src/lib.rs:89-90 | Without a problem line both counts are 0. |
| `Reader.HeaderLastWins` | src/lib.rs:97-102 | The counts are those of the last problem line. |
| `Reader.ParseOkIff` | src/lib.rs:103-184 | The reader returns a formula if and only if every integer-split line yields its record. |
| `Reader.SplitsOkIff` | src/lib.rs:103-156 | The split records are collected if and only if no integer-split line fails. |
| `Reader.WithoutSplitsKeeps` | src/lib.rs:153-184 | Integer-split lines contribute nothing to the prefix, the matrix or the counts. |
| `Reader.ParseIgnoresSplitLines` | src/lib.rs:179-184 | The split records are not part of the result: dropping every integer-split line from an accepted parse tree gives the same formula. |
| `RoundTrip.RoundTrip` | src/lib.rs:157-166 | For a prefix without zero entries, reading the lines the emitter writes returns the written formula: prefix, matrix and both counts. |
| `RoundTrip.EmittedTextIsLines` | src/lib.rs:35-81 | For a prefix without zero entries, the emitted text is exactly: a problem line, one quantifier line per run, one line per clause. |
| `RoundTrip.EmittedPrefixAndMatrix` | src/lib.rs:157-174 | Reading the emitted lines rebuilds the signed prefix from the block markers and the matrix from the clause lines. |
| `RoundTrip.EmittedLinesShape` | src/lib.rs:37-79 | The emitted document has one problem line, first, followed only by quantifier and clause lines. |
| `RoundTrip.BlockLineReadsBack` | src/lib.rs:50-60 | The `e`/`a` line written for one run reads back as the run's signed entries. |
| `RoundTrip.BlockLinesReadBack` | src/lib.rs:43-68 | The block lines read back as the whole prefix and add no clause. |
| `RoundTrip.ClauseLinesReadBack` | src/lib.rs:70-79 | The clause lines read back as the matrix and add no prefix entry. |
| `RoundTrip.BlocksTextIsLines` | src/lib.rs:46-68 | The closed block text is the text of the block lines. |
| `RoundTrip.MatrixTextIsLines` | src/lib.rs:70-79 | The clause text is the text of the clause lines. |
| `RoundTrip.BlocksAlternateLines` | src/lib.rs:46-55 | Without zero entries, every block line's marker is `e` or `a`, and consecutive markers differ. |
| `RoundTrip.BlockVarsAreMagnitudes` | src/lib.rs:50-60 | For a prefix without zero entries, concatenating the variables of all block lines gives the magnitudes of the prefix entries in order. |
| `Splitter.AssumePrefixVars` | src/main.rs:29-50 | The variant for split index `v`. The first `depth` entries become `-|x|`, the rest of the prefix is untouched, the matrix gains exactly `depth` unit clauses and the counts are copied. The name is the index's `t`/`f` spelling plus `:` and the file name, and the contents are the emitter's text. |
| `Splitter.SplitFormula` | src/main.rs:59-63 | The depth is the clamped one, at most the prefix length. Output `v` is the variant for split index `v`, for every `v` in [0, 2^depth). |
| `Splitter.ClampedDepth` | src/main.rs:60 | The depth never exceeds the request or the prefix length. Below 2^32 entries it is their minimum. |
| `Splitter.SplitName` | src/main.rs:32-47 | `depth` characters; the `i`-th is `t` exactly when bit `i` of the index is set. |
| `Splitter.UnitClauses` | src/main.rs:40-45 | `d` unit clauses; the `i`-th holds `|p[i]|` when bit `i` is set and `-|p[i]|` otherwise. |
| `Splitter.UnitClauseMatchesName` | src/main.rs:34-46 | The `i`-th added clause is positive exactly when the name's `i`-th character is `t`. Entry `i` is now existential with the same variable, and an entry that was already existential is unchanged. |
| `Splitter.DepthZeroIdentity` | src/main.rs:35-46 | At depth 0 the variant equals the input formula. |
| `Splitter.SplitNamesDistinct` | src/main.rs:32-47 | Different split indices below 2^d have different names. |
| `Splitter.SplitNamesCover` | src/main.rs:32-47 | Every `t`/`f` string of length d is the name of an index below 2^d. |
| `Splitter.DistinctAssumptions` | src/main.rs:34-46 | Different split indices fix the split variables differently, when none of them is 0. |
| `Splitter.OutputNamesDistinct` | src/main.rs:61-63 | The split loop writes each file name once. |
| `Splitter.OutputNamesCover` | src/main.rs:61-63 | The split loop writes a file for every `t`/`f` assignment of the split variables. |
| `Splitter.OutputsAtDepthZero` | src/main.rs:59-63 | At depth 0 the loop writes one file: the input formula, named `:` plus the file name. |
| `Splitter.HeaderUndercounts` | src/main.rs:30-46 | The header is copied, so a variant of a formula whose header counted its clauses declares `depth` clauses fewer than it holds. |
| `Splitter.BitIsDiv` | src/main.rs:34-36 | Bit `i` of the index is the parity of `v / 2^i`: the least-significant-first bit view. |

## Left out

- File I/O. `write_qdimacs` creates and writes a file; the model returns the text it would write, so `File::create` and `write!` failures are not modelled. The same holds for `fs::read_to_string` and the `write_qdimacs(...).unwrap()` in `main`.
- The `println!` of each split variable at src/lib.rs:112. It is output only.
- The pest grammar `qdimacs.pest` is not part of this model, and neither is `QDIMACSParser::parse` with its `.expect("parser error")`. The reader starts from the tagged lines the grammar produces:
  - problem, quantifier and clause tokens arrive already read as integers;
  - integer-split operand variables and `<`/`>` integer targets are tokens with a value;
  - operators and `=` patterns are tokens with text.
- `Reader.TokenText`: the text of a numeric token is its canonical decimal text, not the token's original spelling (for example leading zeros), since the grammar is not modelled.
- `Reader.TokenInt`: reads an optional sign and decimal digits, but does not reject values outside the 32-bit range as `parse::<i32>` does.
- 32-bit integers. Prefix entries, literals and counts are unbounded integers, so the overflow of `-q`, `var_num * -1` and `abs()` at `i32::MIN` is not modelled.
- `Splitter.SplitFormula`: requires a clamped depth below 32, because `base.pow(depth)` overflows a `u32` from depth 32 on. The cast `prefix.len() as u32` is modelled as the length modulo 2^32.
- `Splitter.AssumePrefixVars`: requires `depth` at most the prefix length and at most 32, and an index below 2^32. The split loop guarantees all three; outside them the source panics on an index out of bounds.
- The `bitvec` view of the split index is modelled by `Bit`, and `BitIsDiv` ties it to `(v / 2^i) % 2`.
- The command line: `clap` argument parsing, the `--merge` branch (file matching and printing names) and the usage message.
- `RoundTrip.RoundTrip`: stated only for prefixes without zero entries. The reader never produces a zero entry. The emitter writes a zero entry as ` 0` without ending the line, so such a text is not a sequence of lines. `RoundTrip.EmittedTextIsLines` and `RoundTrip.BlocksAlternateLines` carry the same restriction.
- `RoundTrip.RoundTrip`: the clause lines are cut at the emitter's line breaks, and a literal `0` in a clause is treated as an ordinary literal. A QDIMACS clause line ends at its first standalone `0`, so for a clause holding a literal `0` (written as `0 0`) the model does not show that the grammar reads the clause back; the QDIMACS format has no such clause. `RoundTrip.EmittedTextIsLines` cuts the text the same way.
- Behaviour the source does not have is not modelled:
  - simplifying clauses;
  - removing split variables from the prefix;
  - recomputing header counts;
  - rejecting a depth that is too large;
  - most-significant-bit-first naming;
  - merging split results.
