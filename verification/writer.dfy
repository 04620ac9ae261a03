/** The QDIMACS emitter: the header line, the quantifier block lines obtained
    by grouping the signed prefix into runs of one sign, and one line per
    clause. The file write is left out; the emitted text is the result. */
module Writer {
  import opened QdimacsTypes

  /** The sign class of a prefix entry. Zero entries never come out of the
      reader, but the emitter handles them, so the model does too. */
  datatype Sign = Negative | Zero | Positive

  function SignOf(q: int): Sign
  {
    if q < 0 then Negative else if q > 0 then Positive else Zero
  }

  /** A run of consecutive prefix entries sharing one sign class. */
  datatype Run = Run(sign: Sign, entries: seq<int>)

  /** Entry `q` added to the runs built so far: an entry of the last run's
      sign class extends that run, any other entry opens a new run. */
  function AddEntry(rs: seq<Run>, q: int): seq<Run>
  {
    if rs != [] && rs[|rs| - 1].sign == SignOf(q) then
      rs[..|rs| - 1] + [Run(SignOf(q), rs[|rs| - 1].entries + [q])]
    else
      rs + [Run(SignOf(q), [q])]
  }

  /** The prefix grouped left to right into maximal runs of one sign class. */
  function Runs(p: seq<int>): seq<Run>
  {
    if p == [] then [] else AddEntry(Runs(p[..|p| - 1]), p[|p| - 1])
  }

  /** The entries of all runs, in order. */
  function Flatten(rs: seq<Run>): seq<int>
  {
    if rs == [] then [] else Flatten(rs[..|rs| - 1]) + rs[|rs| - 1].entries
  }

  /** A run is non-empty and every entry in it has the run's sign. */
  predicate Uniform(r: Run)
  {
    r.entries != [] && forall q <- r.entries :: SignOf(q) == r.sign
  }

  /** Runs that cannot be merged: neighbours differ in sign. */
  predicate Maximal(rs: seq<Run>)
  {
    (forall r <- rs :: Uniform(r)) &&
    forall j :: 0 < j < |rs| ==> rs[j - 1].sign != rs[j].sign
  }

  /** How `Runs` grows when one entry is appended. */
  lemma RunsSnoc(p: seq<int>, q: int)
    ensures Runs(p + [q]) == AddEntry(Runs(p), q)
  {
    assert (p + [q])[..|p|] == p;
  }

  lemma RunsLast(p: seq<int>)
    ensures (Runs(p) == []) == (p == [])
    ensures p != [] ==> Runs(p)[|Runs(p)| - 1].sign == SignOf(p[|p| - 1])
  {
    if p != [] {
      AddEntryLast(Runs(p[..|p| - 1]), p[|p| - 1]);
    }
  }

  /** After adding `q`, the last run has the sign class of `q`. */
  lemma AddEntryLast(rs: seq<Run>, q: int)
    ensures var rs' := AddEntry(rs, q);
      rs' != [] && rs'[|rs'| - 1].sign == SignOf(q)
  {
  }

  lemma FlattenSnoc(rs: seq<Run>, r: Run)
    ensures Flatten(rs + [r]) == Flatten(rs) + r.entries
  {
    assert (rs + [r])[..|rs|] == rs;
  }

  /** `Runs` splits the prefix into maximal runs and loses nothing. */
  lemma {:induction false} RunsMaximal(p: seq<int>)
    ensures Maximal(Runs(p)) && Flatten(Runs(p)) == p
  {
    if p != [] {
      var init, q := p[..|p| - 1], p[|p| - 1];
      assert init + [q] == p;
      RunsMaximal(init);
      RunsSnoc(init, q);
      AddEntryMaximal(Runs(init), q);
    }
  }

  /** Adding an entry keeps runs maximal and flattens to the longer sequence. */
  lemma AddEntryMaximal(rs: seq<Run>, q: int)
    requires Maximal(rs)
    ensures Maximal(AddEntry(rs, q)) && Flatten(AddEntry(rs, q)) == Flatten(rs) + [q]
  {
    if rs != [] && rs[|rs| - 1].sign == SignOf(q) {
      ExtendKeepsMaximal(rs, q);
    } else {
      NewRunKeepsMaximal(rs, q);
    }
  }

  /** Appending an entry to the last run, of the same sign, keeps the runs
      maximal and flattens to the longer sequence. */
  lemma ExtendKeepsMaximal(rs: seq<Run>, q: int)
    requires Maximal(rs) && rs != [] && rs[|rs| - 1].sign == SignOf(q)
    ensures var rs' := rs[..|rs| - 1] + [Run(SignOf(q), rs[|rs| - 1].entries + [q])];
      Maximal(rs') && Flatten(rs') == Flatten(rs) + [q]
  {
    var before, last := rs[..|rs| - 1], rs[|rs| - 1];
    var ext := Run(SignOf(q), last.entries + [q]);
    assert rs == before + [last];
    assert last in rs && Uniform(last);
    assert Uniform(ext) by {
      forall x <- ext.entries ensures SignOf(x) == ext.sign {
        if x != q {
          assert x in last.entries;
        }
      }
    }
    FlattenSnoc(before, last);
    FlattenSnoc(before, ext);
    MaximalReplaceLast(before, last, ext);
  }

  /** Appending an entry of another sign as a new run keeps the runs
      maximal and flattens to the longer sequence. */
  lemma NewRunKeepsMaximal(rs: seq<Run>, q: int)
    requires Maximal(rs) && (rs == [] || rs[|rs| - 1].sign != SignOf(q))
    ensures var rs' := rs + [Run(SignOf(q), [q])];
      Maximal(rs') && Flatten(rs') == Flatten(rs) + [q]
  {
    var r := Run(SignOf(q), [q]);
    FlattenSnoc(rs, r);
    MaximalSnoc(rs, r);
  }

  lemma MaximalReplaceLast(before: seq<Run>, last: Run, r: Run)
    requires Maximal(before + [last]) && Uniform(r) && r.sign == last.sign
    ensures Maximal(before + [r])
  {
    var rs, rs' := before + [last], before + [r];
    forall x <- rs' ensures Uniform(x) {
      if x != r {
        assert x in before;
        assert x in rs;
      }
    }
    forall j | 0 < j < |rs'| ensures rs'[j - 1].sign != rs'[j].sign {
      assert rs'[j - 1] == rs[j - 1];
      assert rs'[j].sign == rs[j].sign;
    }
  }

  lemma MaximalSnoc(rs: seq<Run>, r: Run)
    requires Maximal(rs) && Uniform(r)
    requires rs != [] ==> rs[|rs| - 1].sign != r.sign
    ensures Maximal(rs + [r])
  {
    var rs' := rs + [r];
    forall x <- rs' ensures Uniform(x) {
      if x != r {
        assert x in rs;
      }
    }
    forall j | 0 < j < |rs'| ensures rs'[j - 1].sign != rs'[j].sign {
      assert rs'[j - 1] == rs[j - 1];
      if j < |rs| {
        assert rs'[j] == rs[j];
      }
    }
  }

  /** The last entry of runs whose last run is non-empty. */
  function LastEntry(rs: seq<Run>): int
    requires rs != [] && rs[|rs| - 1].entries != []
  {
    var e := rs[|rs| - 1].entries;
    e[|e| - 1]
  }

  /** The runs with their last entry removed: the inverse of `AddEntry`. */
  function DropLastEntry(rs: seq<Run>): seq<Run>
    requires rs != [] && rs[|rs| - 1].entries != []
  {
    var before, last := rs[..|rs| - 1], rs[|rs| - 1];
    if |last.entries| == 1 then before
    else before + [Run(last.sign, last.entries[..|last.entries| - 1])]
  }

  /** Maximal runs are unique: any maximal decomposition of `p` is `Runs(p)`. */
  lemma {:induction false} RunsUnique(p: seq<int>, rs: seq<Run>)
    requires Maximal(rs) && Flatten(rs) == p
    ensures rs == Runs(p)
    decreases |p|
  {
    if rs == [] {
      assert p == [];
    } else {
      assert rs[|rs| - 1] in rs;
      var rs', q := DropLastEntry(rs), LastEntry(rs);
      DropLastEntryInverse(rs);
      RunsUnique(Flatten(rs'), rs');
      RunsSnoc(Flatten(rs'), q);
    }
  }

  /** Removing the last entry of maximal runs leaves maximal runs one entry
      shorter, and adding that entry back gives the original runs. */
  lemma DropLastEntryInverse(rs: seq<Run>)
    requires Maximal(rs) && rs != [] && rs[|rs| - 1].entries != []
    ensures Maximal(DropLastEntry(rs))
    ensures Flatten(DropLastEntry(rs)) + [LastEntry(rs)] == Flatten(rs)
    ensures AddEntry(DropLastEntry(rs), LastEntry(rs)) == rs
  {
    if |rs[|rs| - 1].entries| == 1 {
      DropSingleEntry(rs);
    } else {
      DropFromLongerRun(rs);
    }
  }

  /** A last run of one entry disappears when that entry is removed. */
  lemma DropSingleEntry(rs: seq<Run>)
    requires Maximal(rs) && rs != [] && |rs[|rs| - 1].entries| == 1
    ensures var before, last := rs[..|rs| - 1], rs[|rs| - 1];
      Maximal(before) && Flatten(before) + last.entries == Flatten(rs) &&
      AddEntry(before, last.entries[0]) == rs
  {
    var before, last := rs[..|rs| - 1], rs[|rs| - 1];
    assert rs == before + [last];
    MaximalInit(before, last);
    FlattenSnoc(before, last);
    var q := last.entries[0];
    assert last in rs && q in last.entries;
    assert last.entries == [q];
    if before != [] {
      assert rs[|rs| - 2] == before[|before| - 1];
    }
  }

  /** A last run of several entries loses its final entry. */
  lemma DropFromLongerRun(rs: seq<Run>)
    requires Maximal(rs) && rs != [] && |rs[|rs| - 1].entries| >= 2
    ensures var last := rs[|rs| - 1];
      var k := |last.entries|;
      var rs' := rs[..|rs| - 1] + [Run(last.sign, last.entries[..k - 1])];
      Maximal(rs') && Flatten(rs') + [last.entries[k - 1]] == Flatten(rs) &&
      AddEntry(rs', last.entries[k - 1]) == rs
  {
    var before, last := rs[..|rs| - 1], rs[|rs| - 1];
    var k := |last.entries|;
    var q := last.entries[k - 1];
    var shorter := Run(last.sign, last.entries[..k - 1]);
    assert rs == before + [last];
    ShortenKeepsMaximal(before, last);
    assert last in rs && q in last.entries;
    assert last.entries == shorter.entries + [q];
    assert (before + [shorter])[..|before|] == before;
  }

  /** Dropping the final entry of a last run of two or more entries keeps
      the runs maximal. */
  lemma ShortenKeepsMaximal(before: seq<Run>, last: Run)
    requires Maximal(before + [last]) && |last.entries| >= 2
    ensures var shorter := Run(last.sign, last.entries[..|last.entries| - 1]);
      Maximal(before + [shorter]) &&
      Flatten(before + [shorter]) + [last.entries[|last.entries| - 1]] == Flatten(before + [last])
  {
    var k := |last.entries|;
    var shorter := Run(last.sign, last.entries[..k - 1]);
    assert last in before + [last];
    assert Uniform(shorter) by {
      forall x <- shorter.entries ensures SignOf(x) == shorter.sign {
        assert x in last.entries;
      }
    }
    MaximalReplaceLast(before, last, shorter);
    FlattenSnoc(before, shorter);
    FlattenSnoc(before, last);
    assert last.entries == shorter.entries + [last.entries[k - 1]];
  }

  lemma MaximalInit(before: seq<Run>, last: Run)
    requires Maximal(before + [last])
    ensures Maximal(before)
  {
    var rs := before + [last];
    forall x <- before ensures Uniform(x) {
      assert x in rs;
    }
    forall j | 0 < j < |before| ensures before[j - 1].sign != before[j].sign {
      assert rs[j - 1] == before[j - 1] && rs[j] == before[j];
    }
  }

  /** In a prefix without zero entries, the runs alternate between
      existential and universal blocks. */
  lemma {:induction false} BlocksAlternate(p: seq<int>)
    requires forall q <- p :: q != 0
    ensures forall r <- Runs(p) :: r.sign != Zero
    ensures forall j :: 0 < j < |Runs(p)| ==>
      (Runs(p)[j - 1].sign == Negative) == (Runs(p)[j].sign == Positive)
  {
    RunsMaximal(p);
    var rs := Runs(p);
    forall r <- rs ensures r.sign != Zero {
      RunEntriesInFlatten(rs, r);
      var x := r.entries[0];
      assert x in r.entries && x in p;
    }
  }

  lemma {:induction false} RunEntriesInFlatten(rs: seq<Run>, r: Run)
    requires r in rs
    ensures forall x <- r.entries :: x in Flatten(rs)
  {
    var last := rs[|rs| - 1];
    assert Flatten(rs) == Flatten(rs[..|rs| - 1]) + last.entries;
    if r != last {
      assert r in rs[..|rs| - 1];
      RunEntriesInFlatten(rs[..|rs| - 1], r);
    }
  }

  // ---------------------------------------------------------------- text

  /** The quantifier letter a run's line starts with. */
  function Marker(s: Sign): string
  {
    match s
    case Negative => "e"
    case Positive => "a"
    case Zero => ""
  }

  /** Each value's magnitude, preceded by one space. */
  function SpacedMagnitudes(xs: seq<int>): string
  {
    if xs == [] then ""
    else SpacedMagnitudes(xs[..|xs| - 1]) + " " + IntText(Abs(xs[|xs| - 1]))
  }

  /** The text written for one run: for an existential run `e 1 2`, for a
      universal run `a 3`, for a run of zero entries ` 0` per entry. */
  function RunText(r: Run): string
  {
    Marker(r.sign) + SpacedMagnitudes(r.entries)
  }

  /** The ` 0\n` that closes the previous block when a new one opens. */
  function Lead(before: seq<Run>, r: Run): string
  {
    if r.sign != Zero && before != [] && before[|before| - 1].sign != Zero then " 0\n" else ""
  }

  /** The text of a sequence of runs whose last block is still open. */
  function OpenText(rs: seq<Run>): string
  {
    if rs == [] then ""
    else
      var before := rs[..|rs| - 1];
      OpenText(before) + Lead(before, rs[|rs| - 1]) + RunText(rs[|rs| - 1])
  }

  /** The text of the whole quantifier prefix, last block closed. */
  function PrefixText(p: seq<int>): string
  {
    OpenText(Runs(p)) + (if p != [] && p[|p| - 1] != 0 then " 0\n" else "")
  }

  function HeaderText(f: Formula): string
  {
    "p cnf " + IntText(f.nrOfVariables) + " " + IntText(f.nrOfClauses) + "\n"
  }

  /** Every literal followed by one space. */
  function LitsText(c: seq<int>): string
  {
    if c == [] then "" else LitsText(c[..|c| - 1]) + IntText(c[|c| - 1]) + " "
  }

  /** One clause line: the literals, then `0` and a newline. */
  function ClauseText(c: seq<int>): string
  {
    LitsText(c) + "0\n"
  }

  function MatrixText(m: seq<seq<int>>): string
  {
    if m == [] then "" else MatrixText(m[..|m| - 1]) + ClauseText(m[|m| - 1])
  }

  /** The whole QDIMACS document the emitter writes for `f`. */
  function DocumentText(f: Formula): string
  {
    HeaderText(f) + PrefixText(f.prefix) + MatrixText(f.matrix)
  }

  /** One block line per run: the marker, the magnitudes, then ` 0\n`. */
  function BlocksText(rs: seq<Run>): string
  {
    if rs == [] then ""
    else BlocksText(rs[..|rs| - 1]) + RunText(rs[|rs| - 1]) + " 0\n"
  }

  lemma {:induction false} OpenTextClosed(rs: seq<Run>)
    requires rs != [] && forall r <- rs :: r.sign != Zero
    ensures OpenText(rs) + " 0\n" == BlocksText(rs)
  {
    var before := rs[..|rs| - 1];
    var last := rs[|rs| - 1];
    if before == [] {
      assert OpenText(before) == "" && BlocksText(before) == "";
    } else {
      assert before[|before| - 1] in rs;
      assert forall r <- before :: r in rs;
      OpenTextClosed(before);
    }
  }

  /** Without zero entries, the prefix text is exactly one closed block line
      per maximal run, and an empty prefix writes nothing. */
  lemma PrefixTextIsBlocks(p: seq<int>)
    requires forall q <- p :: q != 0
    ensures PrefixText(p) == BlocksText(Runs(p))
  {
    RunsMaximal(p);
    BlocksAlternate(p);
    if p != [] {
      OpenTextClosed(Runs(p));
    }
  }

  /** What one step of the emitter's loop writes for entry `q` when the
      previous entry was `last` (0 before the first entry). */
  function StepText(last: int, q: int): string
  {
    if q < 0 && last >= 0 then Closing(last) + ("e " + IntText(-q))
    else if q > 0 && last <= 0 then Closing(last) + ("a " + IntText(q))
    else " " + IntText(Abs(q))
  }

  /** The ` 0` and line break that close the open block, if one is open. */
  function Closing(last: int): string
  {
    if last != 0 then " 0\n" else ""
  }

  lemma OpenTextSnoc(rs: seq<Run>, r: Run)
    ensures OpenText(rs + [r]) == OpenText(rs) + Lead(rs, r) + RunText(r)
  {
    assert (rs + [r])[..|rs|] == rs;
  }

  lemma SpacedMagnitudesSnoc(xs: seq<int>, q: int)
    ensures SpacedMagnitudes(xs + [q]) == SpacedMagnitudes(xs) + " " + IntText(Abs(q))
  {
    assert (xs + [q])[..|xs|] == xs;
  }

  // String identities stated over plain variables, so that the solver does
  // not unfold the text functions while regrouping concatenations.
  lemma ConcatShift(t: string, u: string, a: string, l: string, r: string, x: string)
    requires t == a + l + (r + " " + x) && u == a + l + r
    ensures t == u + (" " + x)
  {
  }

  lemma ConcatRegroup(t: string, a: string, l: string, m: string, x: string, step: string)
    requires t == a + l + (m + (" " + x)) && step == l + (m + " " + x)
    ensures t == a + step
  {
  }

  /** Appending `q` to the last run adds ` |q|` to the open text. */
  lemma OpenTextExtend(rs: seq<Run>, q: int, extended: seq<Run>)
    requires rs != []
    requires extended == rs[..|rs| - 1] + [Run(rs[|rs| - 1].sign, rs[|rs| - 1].entries + [q])]
    ensures OpenText(extended) == OpenText(rs) + (" " + IntText(Abs(q)))
  {
    var before, last := rs[..|rs| - 1], rs[|rs| - 1];
    var ext := Run(last.sign, last.entries + [q]);
    var x := IntText(Abs(q));
    assert RunText(ext) == RunText(last) + " " + x by {
      SpacedMagnitudesSnoc(last.entries, q);
    }
    assert Lead(before, ext) == Lead(before, last);
    OpenTextSnoc(before, ext);
    ConcatShift(OpenText(before + [ext]), OpenText(rs),
                OpenText(before), Lead(before, last), RunText(last), x);
  }

  lemma OpenTextNewRun(rs: seq<Run>, q: int, step: string)
    requires step == Lead(rs, Run(SignOf(q), [q])) + (Marker(SignOf(q)) + " " + IntText(Abs(q)))
    ensures OpenText(rs + [Run(SignOf(q), [q])]) == OpenText(rs) + step
  {
    var r := Run(SignOf(q), [q]);
    OpenTextSnoc(rs, r);
    assert SpacedMagnitudes([q]) == " " + IntText(Abs(q)) by {
      SpacedMagnitudesSnoc([], q);
      assert [] + [q] == [q];
    }
    ConcatRegroup(OpenText(rs + [r]), OpenText(rs), Lead(rs, r), Marker(SignOf(q)), IntText(Abs(q)), step);
  }

  lemma StepTextNewRun(rs: seq<Run>, last: int, q: int)
    requires rs == [] ==> last == 0
    requires rs != [] ==> rs[|rs| - 1].sign == SignOf(last) && SignOf(last) != SignOf(q)
    ensures StepText(last, q) == Lead(rs, Run(SignOf(q), [q])) + (Marker(SignOf(q)) + " " + IntText(Abs(q)))
  {
  }

  /** Appending an entry to a prefix appends exactly `StepText` to the text
      whose last block is still open. */
  lemma OpenTextStep(p: seq<int>, q: int)
    ensures OpenText(Runs(p + [q])) ==
      OpenText(Runs(p)) + StepText(if p == [] then 0 else p[|p| - 1], q)
  {
    RunsSnoc(p, q);
    RunsLast(p);
    OpenTextAdd(Runs(p), if p == [] then 0 else p[|p| - 1], q);
  }

  /** Adding entry `q` to runs whose last entry is `last` (0 for no runs)
      appends `StepText(last, q)` to the text with the last block open. */
  lemma OpenTextAdd(rs: seq<Run>, last: int, q: int)
    requires rs == [] ==> last == 0
    requires rs != [] ==> rs[|rs| - 1].sign == SignOf(last)
    ensures OpenText(AddEntry(rs, q)) == OpenText(rs) + StepText(last, q)
  {
    if rs != [] && rs[|rs| - 1].sign == SignOf(q) {
      OpenTextAddSameSign(rs, last, q);
    } else {
      StepTextNewRun(rs, last, q);
      OpenTextNewRun(rs, q, StepText(last, q));
    }
  }

  /** An entry of the open block's sign extends that block by ` |q|`. */
  lemma OpenTextAddSameSign(rs: seq<Run>, last: int, q: int)
    requires rs != [] && rs[|rs| - 1].sign == SignOf(last) && SignOf(last) == SignOf(q)
    ensures OpenText(AddEntry(rs, q)) == OpenText(rs) + StepText(last, q)
  {
    StepTextSameSign(last, q);
    OpenTextExtend(rs, q, AddEntry(rs, q));
  }

  lemma StepTextSameSign(last: int, q: int)
    requires SignOf(last) == SignOf(q)
    ensures StepText(last, q) == " " + IntText(Abs(q))
  {
  }

  /** `OpenTextStep` at position `i` of a prefix. */
  lemma OpenTextStepAt(p: seq<int>, i: nat)
    requires i < |p|
    ensures OpenText(Runs(p[..i + 1])) ==
      OpenText(Runs(p[..i])) + StepText(if i == 0 then 0 else p[i - 1], p[i])
  {
    assert p[..i] + [p[i]] == p[..i + 1];
    OpenTextStep(p[..i], p[i]);
  }

  lemma ConcatStep(text: string, written: string, header: string, open: string, open': string, step: string)
    requires text == written + step && written == header + open && open' == open + step
    ensures text == header + open'
  {
  }

  lemma ConcatClause(text: string, written: string, before: string, m: string, m': string, lits: string)
    requires text == written + lits + "0\n" && written == before + m && m' == m + (lits + "0\n")
    ensures text == before + m'
  {
  }

  /** The literals of one clause, each followed by a space. */
  method SpaceSeparated(clause: seq<int>) returns (spaceSeparated: string)
    ensures spaceSeparated == LitsText(clause)
  {
    spaceSeparated := "";
    for j := 0 to |clause|
      invariant spaceSeparated == LitsText(clause[..j])
    {
      assert clause[..j + 1][..j] == clause[..j];
      spaceSeparated := spaceSeparated + IntText(clause[j]) + " ";
    }
    assert clause[..|clause|] == clause;
  }

  /** One iteration of the emitter's prefix loop: closes the current block
      and opens a new one when the sign changes, otherwise continues it. */
  method WritePrefixEntry(written: string, lastQ: int, q: int) returns (text: string)
    ensures text == written + StepText(lastQ, q)
  {
    text := written;
    if q < 0 && lastQ >= 0 {
      if lastQ != 0 {
        text := text + " 0\n";
      }
      ghost var closed := text;
      text := text + ("e " + IntText(-q));
      ConcatOpen(text, written, closed, Closing(lastQ), "e " + IntText(-q));
    } else if q > 0 && lastQ <= 0 {
      if lastQ != 0 {
        text := text + " 0\n";
      }
      ghost var closed := text;
      text := text + ("a " + IntText(q));
      ConcatOpen(text, written, closed, Closing(lastQ), "a " + IntText(q));
    } else {
      if q < 0 {
        text := text + (" " + IntText(-q));
      } else {
        text := text + (" " + IntText(q));
      }
    }
  }

  lemma ConcatOpen(text: string, written: string, closed: string, close: string, open: string)
    requires closed == written + close && text == closed + open
    ensures text == written + (close + open)
  {
  }

  lemma MatrixTextAt(m: seq<seq<int>>, c: nat)
    requires c < |m|
    ensures MatrixText(m[..c + 1]) == MatrixText(m[..c]) + ClauseText(m[c])
  {
    assert m[..c + 1][..c] == m[..c];
  }

  /** The emitter: writes the header, the prefix as block lines and one line
      per clause, and returns the text written. */
  method WriteQdimacs(f: Formula) returns (text: string)
    ensures text == DocumentText(f)
    ensures f.prefix == [] ==> text == HeaderText(f) + MatrixText(f.matrix)
    ensures (forall q <- f.prefix :: q != 0) ==>
      text == HeaderText(f) + BlocksText(Runs(f.prefix)) + MatrixText(f.matrix)
  {
    text := "p cnf " + IntText(f.nrOfVariables) + " " + IntText(f.nrOfClauses) + "\n";
    ghost var header := text;
    text := WritePrefix(text, f.prefix);
    ghost var quantified := text;
    text := WriteMatrix(text, f.matrix);
    EmittedDocument(f, text, header, quantified);
  }

  /** The prefix loop of the emitter, with the closing ` 0` of the last block. */
  method WritePrefix(header: string, prefix: seq<int>) returns (text: string)
    ensures text == header + PrefixText(prefix)
  {
    text := header;
    var lastQ := 0;
    for i := 0 to |prefix|
      invariant text == header + OpenText(Runs(prefix[..i]))
      invariant lastQ == if i == 0 then 0 else prefix[i - 1]
    {
      var q := prefix[i];
      ghost var written := text;
      text := WritePrefixEntry(text, lastQ, q);
      OpenTextStepAt(prefix, i);
      ConcatStep(text, written, header, OpenText(Runs(prefix[..i])),
                 OpenText(Runs(prefix[..i + 1])), StepText(lastQ, q));
      lastQ := q;
    }
    if lastQ != 0 {
      text := text + " 0\n";
    }
    PrefixTextClosed(prefix, lastQ);
    ConcatClose(text, header, OpenText(Runs(prefix[..|prefix|])), PrefixText(prefix), lastQ != 0);
  }

  /** The clause loop of the emitter: one line per clause, in order. */
  method WriteMatrix(quantified: string, matrix: seq<seq<int>>) returns (text: string)
    ensures text == quantified + MatrixText(matrix)
  {
    text := quantified;
    for c := 0 to |matrix|
      invariant text == quantified + MatrixText(matrix[..c])
    {
      var clause := matrix[c];
      var spaceSeparated := SpaceSeparated(clause);
      ghost var written := text;
      text := text + spaceSeparated + "0\n";
      MatrixTextAt(matrix, c);
      ConcatClause(text, written, quantified, MatrixText(matrix[..c]),
                   MatrixText(matrix[..c + 1]), spaceSeparated);
    }
    assert matrix[..|matrix|] == matrix;
  }

  lemma ConcatClose(text: string, header: string, open: string, prefixText: string, closed: bool)
    requires text == header + open + (if closed then " 0\n" else "")
    requires prefixText == open + (if closed then " 0\n" else "")
    ensures text == header + prefixText
  {
  }

  lemma PrefixTextClosed(p: seq<int>, lastQ: int)
    requires lastQ == if |p| == 0 then 0 else p[|p| - 1]
    ensures PrefixText(p) == OpenText(Runs(p[..|p|])) + (if lastQ != 0 then " 0\n" else "")
  {
    assert p[..|p|] == p;
  }

  /** Ties the three parts the emitter wrote to the document text. */
  lemma EmittedDocument(f: Formula, text: string, header: string, quantified: string)
    requires header == HeaderText(f) && quantified == header + PrefixText(f.prefix)
    requires text == quantified + MatrixText(f.matrix)
    ensures text == DocumentText(f)
    ensures f.prefix == [] ==> text == HeaderText(f) + MatrixText(f.matrix)
    ensures (forall q <- f.prefix :: q != 0) ==>
      text == HeaderText(f) + BlocksText(Runs(f.prefix)) + MatrixText(f.matrix)
  {
    if f.prefix == [] {
      assert PrefixText(f.prefix) == "";
      ConcatEmpty(header, MatrixText(f.matrix));
    }
    if forall q <- f.prefix :: q != 0 {
      PrefixTextIsBlocks(f.prefix);
    }
  }

  lemma ConcatEmpty(a: string, b: string)
    ensures a + "" + b == a + b
  {
  }
}
