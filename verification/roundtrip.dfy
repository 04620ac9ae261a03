/** Writing and reading back. The emitter's text is cut into the lines the
    grammar would tag, and the reader's walk over those lines returns the
    formula that was written. */
module RoundTrip {
  import opened QdimacsTypes
  import opened Writer
  import opened Reader

  /** The magnitude of every value, in order. */
  function Magnitudes(xs: seq<int>): (r: seq<int>)
    ensures |r| == |xs| && forall j :: 0 <= j < |xs| ==> r[j] == Abs(xs[j])
  {
    if xs == [] then [] else Magnitudes(xs[..|xs| - 1]) + [Abs(xs[|xs| - 1])]
  }

  /** The quantifier line the emitter writes for one run. */
  function BlockLine(r: Run): Line
  {
    QuantSet(Marker(r.sign), Magnitudes(r.entries))
  }

  function BlockLines(rs: seq<Run>): (r: seq<Line>)
    ensures |r| == |rs| && forall j :: 0 <= j < |rs| ==> r[j] == BlockLine(rs[j])
  {
    if rs == [] then [] else BlockLines(rs[..|rs| - 1]) + [BlockLine(rs[|rs| - 1])]
  }

  function ClauseLines(m: seq<seq<int>>): (r: seq<Line>)
    ensures |r| == |m| && forall j :: 0 <= j < |m| ==> r[j] == ClauseLine(m[j])
  {
    if m == [] then [] else ClauseLines(m[..|m| - 1]) + [ClauseLine(m[|m| - 1])]
  }

  /** The lines of the document the emitter writes for `f`. */
  function EmittedLines(f: Formula): seq<Line>
  {
    [ProblemLine(f.nrOfVariables, f.nrOfClauses)] + BlockLines(Runs(f.prefix)) + ClauseLines(f.matrix)
  }

  /** The text of a line of the kinds the emitter writes; integer-split lines
      and comments are never written, so they have no text here. */
  function LineText(l: Line): string
  {
    match l
    case ProblemLine(vs, cs) => "p cnf " + IntText(vs) + " " + IntText(cs) + "\n"
    case QuantSet(quantifier, vars) => quantifier + SpacedMagnitudes(vars) + " 0\n"
    case ClauseLine(lits) => ClauseText(lits)
    case IntSplitLine(_) => ""
    case OtherLine => ""
  }

  function LinesText(ls: seq<Line>): string
  {
    if ls == [] then "" else LinesText(ls[..|ls| - 1]) + LineText(ls[|ls| - 1])
  }

  // ------------------------------------------------------------ the text

  lemma {:induction false} LinesTextAppend(a: seq<Line>, b: seq<Line>)
    ensures LinesText(a + b) == LinesText(a) + LinesText(b)
    decreases |b|
  {
    if b == [] {
      assert a + b == a;
    } else {
      var init := b[..|b| - 1];
      assert (a + b)[..|a + b| - 1] == a + init;
      assert (a + b)[|a + b| - 1] == b[|b| - 1];
      LinesTextAppend(a, init);
      ConcatAssoc(LinesText(a), LinesText(init), LineText(b[|b| - 1]));
    }
  }

  lemma {:induction false} SpacedMagnitudesAbs(xs: seq<int>)
    ensures SpacedMagnitudes(Magnitudes(xs)) == SpacedMagnitudes(xs)
  {
    if xs != [] {
      var init := xs[..|xs| - 1];
      assert Magnitudes(xs)[..|xs| - 1] == Magnitudes(init);
      SpacedMagnitudesAbs(init);
    }
  }

  lemma ConcatBlock(before: string, marker: string, spaced: string)
    ensures before + (marker + spaced) + " 0\n" == before + (marker + spaced + " 0\n")
  {
  }

  /** The closed block lines are the texts of the block lines. */
  lemma {:induction false} BlocksTextIsLines(rs: seq<Run>)
    ensures BlocksText(rs) == LinesText(BlockLines(rs))
  {
    if rs != [] {
      var init := rs[..|rs| - 1];
      var last := rs[|rs| - 1];
      BlocksTextIsLines(init);
      assert BlockLines(rs)[..|rs| - 1] == BlockLines(init);
      SpacedMagnitudesAbs(last.entries);
      ConcatBlock(BlocksText(init), Marker(last.sign), SpacedMagnitudes(last.entries));
    }
  }

  lemma {:induction false} MatrixTextIsLines(m: seq<seq<int>>)
    ensures MatrixText(m) == LinesText(ClauseLines(m))
  {
    if m != [] {
      var init := m[..|m| - 1];
      MatrixTextIsLines(init);
      assert ClauseLines(m)[..|m| - 1] == ClauseLines(init);
    }
  }

  /** For a prefix without zero entries, the emitted document is exactly the
      text of its lines: one problem line, one quantifier line per block,
      one line per clause. */
  lemma EmittedTextIsLines(f: Formula)
    requires forall q <- f.prefix :: q != 0
    ensures DocumentText(f) == LinesText(EmittedLines(f))
  {
    var header := [ProblemLine(f.nrOfVariables, f.nrOfClauses)];
    var blocks := BlockLines(Runs(f.prefix));
    var clauses := ClauseLines(f.matrix);
    PrefixTextIsBlocks(f.prefix);
    BlocksTextIsLines(Runs(f.prefix));
    MatrixTextIsLines(f.matrix);
    LinesTextAppend(header + blocks, clauses);
    LinesTextAppend(header, blocks);
    assert LinesText(header) == LineText(header[0]) by {
      assert header[..0] == [];
    }
  }

  // ------------------------------------------------------------ the walk

  /** A block line reads back as the run it was written for: an `e` line
      negates the magnitudes of a run of negative entries, an `a` line keeps
      those of a run of positive entries. */
  lemma BlockLineReadsBack(r: Run)
    requires Uniform(r) && r.sign != Zero
    ensures LinePrefix(BlockLine(r)) == r.entries
  {
    var vs := SignedVars(Marker(r.sign), Magnitudes(r.entries));
    forall j | 0 <= j < |r.entries| ensures vs[j] == r.entries[j] {
      assert r.entries[j] in r.entries;
    }
  }

  lemma {:induction false} BlockLinesReadBack(rs: seq<Run>)
    requires forall r <- rs :: Uniform(r) && r.sign != Zero
    ensures PrefixOf(BlockLines(rs)) == Flatten(rs)
    ensures MatrixOf(BlockLines(rs)) == []
  {
    if rs != [] {
      var init := rs[..|rs| - 1];
      var last := rs[|rs| - 1];
      assert forall r <- init :: r in rs;
      BlockLinesReadBack(init);
      assert BlockLines(rs)[..|rs| - 1] == BlockLines(init);
      BlockLineReadsBack(last);
    }
  }

  lemma {:induction false} ClauseLinesReadBack(m: seq<seq<int>>)
    ensures PrefixOf(ClauseLines(m)) == []
    ensures MatrixOf(ClauseLines(m)) == m
  {
    if m != [] {
      var init := m[..|m| - 1];
      ClauseLinesReadBack(init);
      assert ClauseLines(m)[..|m| - 1] == ClauseLines(init);
    }
  }

  /** Reading what the emitter writes gives back the formula: the blocks
      rebuild the signed prefix, the clause lines the matrix, the problem
      line the counts, and no integer-split line is written. */
  lemma RoundTrip(f: Formula)
    requires forall q <- f.prefix :: q != 0
    ensures Parse(EmittedLines(f)) == Ok(f)
  {
    var lines := EmittedLines(f);
    assert HeaderOf(lines) == (f.nrOfVariables, f.nrOfClauses) by {
      EmittedLinesShape(f);
      HeaderLastWins(lines, 0);
    }
    assert SplitsOf(lines).Ok? by {
      EmittedLinesShape(f);
      SplitsOkIff(lines);
    }
    EmittedPrefixAndMatrix(f);
  }

  /** After the problem line come only quantifier and clause lines. */
  lemma EmittedLinesShape(f: Formula)
    ensures var lines := EmittedLines(f);
      lines[0] == ProblemLine(f.nrOfVariables, f.nrOfClauses) &&
      forall j :: 0 < j < |lines| ==> lines[j].QuantSet? || lines[j].ClauseLine?
  {
    var blocks := BlockLines(Runs(f.prefix));
    var clauses := ClauseLines(f.matrix);
    var lines := EmittedLines(f);
    forall j | 0 < j < |lines| ensures lines[j].QuantSet? || lines[j].ClauseLine? {
      if j <= |blocks| {
        assert lines[j] == blocks[j - 1];
      } else {
        assert lines[j] == clauses[j - 1 - |blocks|];
      }
    }
  }

  lemma EmittedPrefixAndMatrix(f: Formula)
    requires forall q <- f.prefix :: q != 0
    ensures PrefixOf(EmittedLines(f)) == f.prefix
    ensures MatrixOf(EmittedLines(f)) == f.matrix
  {
    var header := [ProblemLine(f.nrOfVariables, f.nrOfClauses)];
    var blocks := BlockLines(Runs(f.prefix));
    var clauses := ClauseLines(f.matrix);
    assert PrefixOf(header) == [] && MatrixOf(header) == [] by {
      assert header[..0] == [];
    }
    assert PrefixOf(blocks) == f.prefix && MatrixOf(blocks) == [] by {
      RunsMaximal(f.prefix);
      BlocksAlternate(f.prefix);
      BlockLinesReadBack(Runs(f.prefix));
    }
    ClauseLinesReadBack(f.matrix);
    PrefixOfAppend(header + blocks, clauses);
    PrefixOfAppend(header, blocks);
    MatrixOfAppend(header + blocks, clauses);
    MatrixOfAppend(header, blocks);
  }

  /** The block lines list every prefix variable once, in prefix order, and
      their markers alternate between `e` and `a`. */
  lemma BlocksAlternateLines(p: seq<int>)
    requires forall q <- p :: q != 0
    ensures var ls := BlockLines(Runs(p));
      forall j :: 0 <= j < |ls| ==> ls[j].quantifier == "e" || ls[j].quantifier == "a"
    ensures var ls := BlockLines(Runs(p));
      forall j :: 0 < j < |ls| ==> ls[j - 1].quantifier != ls[j].quantifier
  {
    BlocksAlternate(p);
    var rs := Runs(p);
    var ls := BlockLines(rs);
    forall j | 0 <= j < |ls| ensures ls[j].quantifier == "e" || ls[j].quantifier == "a" {
      assert rs[j] in rs;
    }
    forall j | 0 < j < |ls| ensures ls[j - 1].quantifier != ls[j].quantifier {
      assert rs[j - 1] in rs && rs[j] in rs;
      assert "e"[0] != "a"[0];
    }
  }

  /** The variables of all quantifier lines, in order. */
  function BlockVars(ls: seq<Line>): seq<int>
  {
    if ls == [] then []
    else
      var l := ls[|ls| - 1];
      BlockVars(ls[..|ls| - 1]) + (if l.QuantSet? then l.vars else [])
  }

  lemma {:induction false} MagnitudesAppend(a: seq<int>, b: seq<int>)
    ensures Magnitudes(a + b) == Magnitudes(a) + Magnitudes(b)
  {
    var m := Magnitudes(a) + Magnitudes(b);
    assert |Magnitudes(a + b)| == |m|;
    forall j | 0 <= j < |m| ensures Magnitudes(a + b)[j] == m[j] {
      if j < |a| {
        assert (a + b)[j] == a[j];
      } else {
        assert (a + b)[j] == b[j - |a|];
      }
    }
  }

  lemma {:induction false} BlockLinesVars(rs: seq<Run>)
    ensures BlockVars(BlockLines(rs)) == Magnitudes(Flatten(rs))
  {
    if rs != [] {
      var init := rs[..|rs| - 1];
      BlockLinesVars(init);
      assert BlockLines(rs)[..|rs| - 1] == BlockLines(init);
      MagnitudesAppend(Flatten(init), rs[|rs| - 1].entries);
    }
  }

  /** The quantifier lines list the magnitudes of the prefix entries in
      prefix order: every variable once, none added. */
  lemma BlockVarsAreMagnitudes(p: seq<int>)
    requires forall q <- p :: q != 0
    ensures BlockVars(BlockLines(Runs(p))) == Magnitudes(p)
  {
    RunsMaximal(p);
    BlockLinesVars(Runs(p));
  }
}
