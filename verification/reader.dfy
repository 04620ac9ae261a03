/** The QDIMACS reader: the walk over the grammar's parse tree that builds the
    prefix, the matrix, the header counts and the integer-split records. The
    grammar itself is not modelled: its output arrives as a sequence of
    tagged lines whose numeric tokens are already integers. */
module Reader {
  import opened QdimacsTypes

  /** A token inside an integer-split line. */
  datatype SplitToken =
    | Pnum(value: int)      // a variable of the operand list
    | Number(value: int)    // an integer target
    | Lexeme(text: string)  // the comparison operator or a bit pattern

  /** One line of the parse tree, tagged with its grammar rule. */
  datatype Line =
    | ProblemLine(nrOfVariables: int, nrOfClauses: int)
    | QuantSet(quantifier: string, vars: seq<int>)
    | ClauseLine(lits: seq<int>)
    | IntSplitLine(tokens: seq<SplitToken>)
    | OtherLine  // comments and the end of input

  /** The text of a token, as the parse tree's `as_str` gives it. */
  function TokenText(t: SplitToken): string
  {
    match t
    case Pnum(n) => IntText(n)
    case Number(n) => IntText(n)
    case Lexeme(s) => s
  }

  // ------------------------------------------------------ integer splits

  function KindOf(op: string): Result<IntegerSplitKind>
  {
    if op == "<" then Ok(LessThan)
    else if op == ">" then Ok(GreaterThan)
    else if op == "=" then Ok(Equals)
    else Err(UnknownPattern)
  }

  /** The digits of a `=` target, `'1'` read as 1 and `'0'` as 0; any other
      character stops the reader. */
  function BitDigits(s: string): (r: Result<seq<int>>)
    ensures r.Ok? <==> forall i :: 0 <= i < |s| ==> s[i] == '0' || s[i] == '1'
    ensures r.Ok? ==> |r.value| == |s|
    ensures r.Ok? ==> forall i :: 0 <= i < |s| ==> r.value[i] == if s[i] == '1' then 1 else 0
    ensures r.Err? ==> r.error == NonBinaryDigit
  {
    if s == [] then Ok([])
    else if s[0] != '0' && s[0] != '1' then Err(NonBinaryDigit)
    else match BitDigits(s[1..])
      case Err(e) => Err(e)
      case Ok(rest) => Ok([if s[0] == '1' then 1 else 0] + rest)
  }

  predicate IsDigit(c: char)
  {
    '0' <= c <= '9'
  }

  /** The value of a non-empty run of decimal digits. */
  function DigitsValue(s: string): nat
    requires forall i :: 0 <= i < |s| ==> IsDigit(s[i])
  {
    if s == [] then 0
    else
      assert IsDigit(s[|s| - 1]);
      10 * DigitsValue(s[..|s| - 1]) + (s[|s| - 1] as int - '0' as int)
  }

  /** A token read as an integer: numeric tokens carry their value; a lexeme
      reads as an optional sign followed by at least one decimal digit. */
  function TokenInt(t: SplitToken): Result<int>
  {
    match t
    case Pnum(n) => Ok(n)
    case Number(n) => Ok(n)
    case Lexeme(s) =>
      var sign := if s != [] && (s[0] == '-' || s[0] == '+') then 1 else 0;
      var digits := s[sign..];
      if digits == [] || exists i :: 0 <= i < |digits| && !IsDigit(digits[i]) then Err(NotAnInteger)
      else
        var magnitude: int := DigitsValue(digits);
        Ok(if s[0] == '-' then -magnitude else magnitude)
  }

  /** How many tokens at the start of `ts` are operand variables. */
  function LeadingPnums(ts: seq<SplitToken>): (k: nat)
    ensures k <= |ts|
    ensures forall i :: 0 <= i < k ==> ts[i].Pnum?
    ensures k < |ts| ==> !ts[k].Pnum?
  {
    if ts == [] || !ts[0].Pnum? then 0 else 1 + LeadingPnums(ts[1..])
  }

  function PnumValues(ts: seq<SplitToken>): seq<int>
    requires forall i :: 0 <= i < |ts| ==> ts[i].Pnum?
  {
    seq(|ts|, i requires 0 <= i < |ts| && ts[i].Pnum? => ts[i].value)
  }

  /** The 0/1 digit lists of the `=` targets; stops at the first token with
      another character. */
  function BitTargets(ts: seq<SplitToken>): Result<seq<seq<int>>>
  {
    if ts == [] then Ok([])
    else match BitTargets(ts[..|ts| - 1])
      case Err(e) => Err(e)
      case Ok(done) =>
        match BitDigits(TokenText(ts[|ts| - 1]))
        case Err(e) => Err(e)
        case Ok(bits) => Ok(done + [bits])
  }

  /** The record an integer-split line yields: the leading operand variables,
      then the comparison, then either every remaining token as a 0/1 pattern
      (for `=`) or the one next token as an integer (for `<` and `>`). */
  function SplitOf(ts: seq<SplitToken>): (r: Result<IntegerSplit>)
    ensures LeadingPnums(ts) == |ts| ==> r == Err(MissingToken)
    ensures LeadingPnums(ts) < |ts| && KindOf(TokenText(ts[LeadingPnums(ts)])).Err? ==>
      r == Err(UnknownPattern)
    ensures r.Ok? ==> var k := LeadingPnums(ts);
      && k < |ts|
      && KindOf(TokenText(ts[k])) == Ok(r.value.kind)
      && r.value.vars == PnumValues(ts[..k])
      && (r.value.kind == Equals ==>
            |r.value.target| == |ts| - k - 1 &&
            forall j :: 0 <= j < |r.value.target| ==>
              BitDigits(TokenText(ts[k + 1 + j])) == Ok(r.value.target[j]))
      && (r.value.kind != Equals ==>
            k + 1 < |ts| && TokenInt(ts[k + 1]).Ok? &&
            r.value.target == [[TokenInt(ts[k + 1]).value]])
    ensures r.Ok? <==> var k := LeadingPnums(ts);
      && k < |ts|
      && KindOf(TokenText(ts[k])).Ok?
      && (KindOf(TokenText(ts[k])) == Ok(Equals) ==> BitTargets(ts[k + 1..]).Ok?)
      && (KindOf(TokenText(ts[k])) != Ok(Equals) ==> k + 1 < |ts| && TokenInt(ts[k + 1]).Ok?)
    ensures var k := LeadingPnums(ts);
      k < |ts| && KindOf(TokenText(ts[k])) == Ok(Equals) && BitTargets(ts[k + 1..]).Err? ==>
        r == Err(BitTargets(ts[k + 1..]).error)
    ensures var k := LeadingPnums(ts);
      k + 1 == |ts| && KindOf(TokenText(ts[k])).Ok? && KindOf(TokenText(ts[k])) != Ok(Equals) ==>
        r == Err(MissingToken)
    ensures var k := LeadingPnums(ts);
      (k + 1 < |ts| && KindOf(TokenText(ts[k])).Ok? && KindOf(TokenText(ts[k])) != Ok(Equals) &&
       TokenInt(ts[k + 1]).Err?) ==> r == Err(NotAnInteger)
  {
    var k := LeadingPnums(ts);
    if k == |ts| then Err(MissingToken)
    else match KindOf(TokenText(ts[k]))
      case Err(e) => Err(e)
      case Ok(kind) =>
        var vars := PnumValues(ts[..k]);
        if kind == Equals then
          match BitTargets(ts[k + 1..])
          case Err(e) => Err(e)
          case Ok(targets) =>
            BitTargetsOk(ts[k + 1..]);
            Ok(IntegerSplit(kind, vars, targets))
        else if k + 1 == |ts| then Err(MissingToken)
        else match TokenInt(ts[k + 1])
          case Err(e) => Err(e)
          case Ok(n) => Ok(IntegerSplit(kind, vars, [[n]]))
  }

  /** What a successful `BitTargets` holds: one digit list per token. */
  lemma {:induction false} BitTargetsOk(ts: seq<SplitToken>)
    requires BitTargets(ts).Ok?
    ensures |BitTargets(ts).value| == |ts|
    ensures forall j :: 0 <= j < |ts| ==>
      BitDigits(TokenText(ts[j])) == Ok(BitTargets(ts).value[j])
  {
    if ts != [] {
      var init := ts[..|ts| - 1];
      BitTargetsOk(init);
      forall j | 0 <= j < |ts| - 1
        ensures BitDigits(TokenText(ts[j])) == Ok(BitTargets(ts).value[j])
      {
        assert ts[j] == init[j];
      }
    }
  }

  lemma BitTargetsAt(ts: seq<SplitToken>, lo: nat, i: nat)
    requires lo <= i < |ts|
    ensures BitTargets(ts[lo..i + 1]) ==
      match BitTargets(ts[lo..i])
      case Err(e) => Err(e)
      case Ok(done) =>
        match BitDigits(TokenText(ts[i]))
        case Err(e) => Err(e)
        case Ok(bits) => Ok(done + [bits])
  {
    assert ts[lo..i + 1][..i - lo] == ts[lo..i];
    assert ts[lo..i + 1][i - lo] == ts[i];
  }

  /** The operand variables at the start of an integer-split line. */
  method ReadVars(tokens: seq<SplitToken>) returns (vars: seq<int>, k: nat)
    ensures k == LeadingPnums(tokens) && vars == PnumValues(tokens[..k])
  {
    vars, k := [], 0;
    while k < |tokens| && tokens[k].Pnum?
      invariant k <= |tokens| && forall j :: 0 <= j < k ==> tokens[j].Pnum?
      invariant vars == PnumValues(tokens[..k])
    {
      vars := vars + [tokens[k].value];
      k := k + 1;
    }
  }

  /** The 0/1 digit lists of the `=` targets from token `lo` on. */
  method ReadBitTargets(tokens: seq<SplitToken>, lo: nat) returns (r: Result<seq<seq<int>>>)
    requires lo <= |tokens|
    ensures r == BitTargets(tokens[lo..])
  {
    var target: seq<seq<int>> := [];
    var next := lo;
    while next < |tokens|
      invariant lo <= next <= |tokens|
      invariant BitTargets(tokens[lo..next]) == Ok(target)
      decreases |tokens| - next
    {
      BitTargetsAt(tokens, lo, next);
      var bits := BitDigits(TokenText(tokens[next]));
      if bits.Err? {
        BitTargetsFailurePersists(tokens, lo, next + 1);
        return Err(bits.error);
      }
      target := target + [bits.value];
      next := next + 1;
    }
    assert tokens[lo..next] == tokens[lo..];
    r := Ok(target);
  }

  /** The walk over one integer-split line's tokens. */
  method ParseIntSplit(tokens: seq<SplitToken>) returns (r: Result<IntegerSplit>)
    ensures r == SplitOf(tokens)
  {
    var vars, k := ReadVars(tokens);
    if k == |tokens| {
      return Err(MissingToken);
    }
    var kind: IntegerSplitKind;
    var op := TokenText(tokens[k]);
    if op == "<" {
      kind := LessThan;
    } else if op == ">" {
      kind := GreaterThan;
    } else if op == "=" {
      kind := Equals;
    } else {
      return Err(UnknownPattern);
    }
    var target: seq<seq<int>>;
    if kind == Equals {
      var bits := ReadBitTargets(tokens, k + 1);
      if bits.Err? {
        return Err(bits.error);
      }
      target := bits.value;
    } else {
      if k + 1 == |tokens| {
        return Err(MissingToken);
      }
      var n := TokenInt(tokens[k + 1]);
      if n.Err? {
        return Err(n.error);
      }
      target := [[n.value]];
    }
    r := Ok(IntegerSplit(kind, vars, target));
  }

  /** Once a `=` target fails, the whole line fails with the same error. */
  lemma {:induction false} BitTargetsFailurePersists(ts: seq<SplitToken>, lo: nat, i: nat)
    requires lo <= i <= |ts| && BitTargets(ts[lo..i]).Err?
    ensures BitTargets(ts[lo..]) == BitTargets(ts[lo..i])
    decreases |ts| - i
  {
    if i < |ts| {
      BitTargetsAt(ts, lo, i);
      BitTargetsFailurePersists(ts, lo, i + 1);
    } else {
      assert ts[lo..i] == ts[lo..];
    }
  }

  // ------------------------------------------------------- the line walk

  /** The prefix entries of a quantifier line: negated iff the marker is `e`. */
  function SignedVars(quantifier: string, vars: seq<int>): seq<int>
  {
    seq(|vars|, j requires 0 <= j < |vars| => if quantifier == "e" then vars[j] * -1 else vars[j])
  }

  function LinePrefix(l: Line): seq<int>
  {
    if l.QuantSet? then SignedVars(l.quantifier, l.vars) else []
  }

  /** The prefix the walk builds: every quantifier line's entries, in order. */
  function PrefixOf(lines: seq<Line>): seq<int>
  {
    if lines == [] then []
    else PrefixOf(lines[..|lines| - 1]) + LinePrefix(lines[|lines| - 1])
  }

  function LineClauses(l: Line): seq<seq<int>>
  {
    if l.ClauseLine? then [l.lits] else []
  }

  /** The matrix the walk builds: every clause line's literals, in order. */
  function MatrixOf(lines: seq<Line>): seq<seq<int>>
  {
    if lines == [] then []
    else MatrixOf(lines[..|lines| - 1]) + LineClauses(lines[|lines| - 1])
  }

  /** The header counts: those of the last problem line, (0, 0) without one. */
  function HeaderOf(lines: seq<Line>): (int, int)
  {
    if lines == [] then (0, 0)
    else
      var l := lines[|lines| - 1];
      if l.ProblemLine? then (l.nrOfVariables, l.nrOfClauses) else HeaderOf(lines[..|lines| - 1])
  }

  /** The integer-split records, or the error of the first line that fails. */
  function SplitsOf(lines: seq<Line>): Result<seq<IntegerSplit>>
  {
    if lines == [] then Ok([])
    else match SplitsOf(lines[..|lines| - 1])
      case Err(e) => Err(e)
      case Ok(done) =>
        var l := lines[|lines| - 1];
        if !l.IntSplitLine? then Ok(done)
        else match SplitOf(l.tokens)
          case Err(e) => Err(e)
          case Ok(s) => Ok(done + [s])
  }

  /** What the reader returns for a parse tree: the formula when no line
      makes it panic; the integer-split records are not part of it. */
  function Parse(lines: seq<Line>): Result<Formula>
  {
    match SplitsOf(lines)
    case Err(e) => Err(e)
    case Ok(_) =>
      var (nrOfVariables, nrOfClauses) := HeaderOf(lines);
      Ok(Formula(PrefixOf(lines), MatrixOf(lines), nrOfVariables, nrOfClauses))
  }

  /** One step of the walk, at line `i`. */
  lemma WalkAt(lines: seq<Line>, i: nat)
    requires i < |lines|
    ensures PrefixOf(lines[..i + 1]) == PrefixOf(lines[..i]) + LinePrefix(lines[i])
    ensures MatrixOf(lines[..i + 1]) == MatrixOf(lines[..i]) + LineClauses(lines[i])
    ensures HeaderOf(lines[..i + 1]) ==
      if lines[i].ProblemLine? then (lines[i].nrOfVariables, lines[i].nrOfClauses)
      else HeaderOf(lines[..i])
    ensures SplitsOf(lines[..i + 1]) ==
      match SplitsOf(lines[..i])
      case Err(e) => Err(e)
      case Ok(done) =>
        if !lines[i].IntSplitLine? then Ok(done)
        else match SplitOf(lines[i].tokens)
          case Err(e) => Err(e)
          case Ok(s) => Ok(done + [s])
  {
    assert lines[..i + 1][..i] == lines[..i];
    assert lines[..i + 1][i] == lines[i];
  }

  lemma SignedVarsAt(quantifier: string, vars: seq<int>, j: nat)
    requires j < |vars|
    ensures SignedVars(quantifier, vars[..j + 1]) ==
      SignedVars(quantifier, vars[..j]) + [if quantifier == "e" then vars[j] * -1 else vars[j]]
  {
  }

  /** A line that makes the walk panic decides the result. */
  lemma {:induction false} SplitsFailurePersists(lines: seq<Line>, i: nat)
    requires i <= |lines| && SplitsOf(lines[..i]).Err?
    ensures SplitsOf(lines) == SplitsOf(lines[..i])
    decreases |lines| - i
  {
    if i < |lines| {
      WalkAt(lines, i);
      SplitsFailurePersists(lines, i + 1);
    } else {
      assert lines[..i] == lines;
    }
  }

  /** The entries of one quantifier line appended to the prefix. */
  method ReadQuantSet(prefix: seq<int>, quantifier: string, vars: seq<int>) returns (extended: seq<int>)
    ensures extended == prefix + SignedVars(quantifier, vars)
  {
    extended := prefix;
    var neg := quantifier == "e";
    for j := 0 to |vars|
      invariant extended == prefix + SignedVars(quantifier, vars[..j])
    {
      SignedVarsAt(quantifier, vars, j);
      var varNum := vars[j];
      var quantifiedVar := if neg then varNum * -1 else varNum;
      extended := extended + [quantifiedVar];
    }
    assert vars[..|vars|] == vars;
  }

  /** The literals of one clause line, in order. */
  method ReadClause(lits: seq<int>) returns (clause: seq<int>)
    ensures clause == lits
  {
    clause := [];
    for j := 0 to |lits|
      invariant clause == lits[..j]
    {
      clause := clause + [lits[j]];
    }
    assert lits[..|lits|] == lits;
  }

  /** The reader's walk over the parse tree. */
  method ParseQdimacs(lines: seq<Line>) returns (r: Result<Formula>)
    ensures r == Parse(lines)
  {
    var nrOfVariables := 0;
    var nrOfClauses := 0;
    var prefix: seq<int> := [];
    var matrix: seq<seq<int>> := [];
    var integerSplits: seq<IntegerSplit> := [];

    for i := 0 to |lines|
      invariant prefix == PrefixOf(lines[..i])
      invariant matrix == MatrixOf(lines[..i])
      invariant (nrOfVariables, nrOfClauses) == HeaderOf(lines[..i])
      invariant SplitsOf(lines[..i]) == Ok(integerSplits)
    {
      WalkAt(lines, i);
      match lines[i]
      case ProblemLine(vs, cs) =>
        nrOfVariables := vs;
        nrOfClauses := cs;
      case IntSplitLine(tokens) =>
        var split := ParseIntSplit(tokens);
        if split.Err? {
          SplitsFailurePersists(lines, i + 1);
          return Err(split.error);
        }
        integerSplits := integerSplits + [split.value];
      case QuantSet(quantifier, vars) =>
        prefix := ReadQuantSet(prefix, quantifier, vars);
      case ClauseLine(lits) =>
        var clause := ReadClause(lits);
        matrix := matrix + [clause];
      case OtherLine =>
    }
    assert lines[..|lines|] == lines;
    r := Ok(Formula(prefix, matrix, nrOfVariables, nrOfClauses));
  }

  // ------------------------------------------------------------ properties

  /** Every character of a decimal text is a digit. */
  lemma {:induction false} NatTextDigits(n: nat)
    ensures NatText(n) != [] && forall i :: 0 <= i < |NatText(n)| ==> IsDigit(NatText(n)[i])
    decreases n
  {
    if n >= 10 {
      NatTextDigits(n / 10);
    }
  }

  /** Reading back the decimal text of a natural number gives the number. */
  lemma {:induction false} NatTextValue(n: nat)
    ensures forall i :: 0 <= i < |NatText(n)| ==> IsDigit(NatText(n)[i])
    ensures DigitsValue(NatText(n)) == n
    decreases n
  {
    NatTextDigits(n);
    if n >= 10 {
      NatTextValue(n / 10);
      var s := NatText(n);
      assert s[..|s| - 1] == NatText(n / 10);
    }
  }

  /** The integer reader inverts `IntText`: a target written in decimal
      reads back as the same integer. */
  lemma TokenIntText(n: int)
    ensures TokenInt(Lexeme(IntText(n))) == Ok(n)
  {
    var s := IntText(n);
    NatTextValue(Abs(n));
    if n < 0 {
      assert s[1..] == NatText(-n);
    } else {
      assert IsDigit(s[0]);
      assert s[0..] == s;
    }
  }

  /** The prefix of a concatenation of parse trees is the concatenation of
      their prefixes. */
  lemma {:induction false} PrefixOfAppend(a: seq<Line>, b: seq<Line>)
    ensures PrefixOf(a + b) == PrefixOf(a) + PrefixOf(b)
    decreases |b|
  {
    if b == [] {
      assert a + b == a;
    } else {
      var init := b[..|b| - 1];
      var last := LinePrefix(b[|b| - 1]);
      assert (a + b)[..|a + b| - 1] == a + init;
      assert (a + b)[|a + b| - 1] == b[|b| - 1];
      PrefixOfAppend(a, init);
      ConcatAssoc(PrefixOf(a), PrefixOf(init), last);
    }
  }

  /** The matrix of a concatenation of parse trees is the concatenation of
      their matrices: clauses keep the order of their lines. */
  lemma {:induction false} MatrixOfAppend(a: seq<Line>, b: seq<Line>)
    ensures MatrixOf(a + b) == MatrixOf(a) + MatrixOf(b)
    decreases |b|
  {
    if b == [] {
      assert a + b == a;
    } else {
      var init := b[..|b| - 1];
      assert (a + b)[..|a + b| - 1] == a + init;
      MatrixOfAppend(a, init);
    }
  }

  /** Without a problem line both counts stay 0. */
  lemma {:induction false} HeaderDefault(lines: seq<Line>)
    requires forall k :: 0 <= k < |lines| ==> !lines[k].ProblemLine?
    ensures HeaderOf(lines) == (0, 0)
  {
    if lines != [] {
      HeaderDefault(lines[..|lines| - 1]);
    }
  }

  /** The counts come from the last problem line: each problem line
      overwrites the ones before it. */
  lemma {:induction false} HeaderLastWins(lines: seq<Line>, k: nat)
    requires k < |lines| && lines[k].ProblemLine?
    requires forall j :: k < j < |lines| ==> !lines[j].ProblemLine?
    ensures HeaderOf(lines) == (lines[k].nrOfVariables, lines[k].nrOfClauses)
  {
    if k < |lines| - 1 {
      var init := lines[..|lines| - 1];
      HeaderLastWins(init, k);
    }
  }

  /** The reader returns a formula exactly when every integer-split line
      yields its record; otherwise it stops with the first line's error. */
  lemma {:induction false} ParseOkIff(lines: seq<Line>)
    ensures Parse(lines).Ok? <==>
      forall k :: 0 <= k < |lines| && lines[k].IntSplitLine? ==> SplitOf(lines[k].tokens).Ok?
  {
    SplitsOkIff(lines);
  }

  lemma {:induction false} SplitsOkIff(lines: seq<Line>)
    ensures SplitsOf(lines).Ok? <==>
      forall k :: 0 <= k < |lines| && lines[k].IntSplitLine? ==> SplitOf(lines[k].tokens).Ok?
  {
    if lines != [] {
      var init := lines[..|lines| - 1];
      SplitsOkIff(init);
      assert forall k :: 0 <= k < |init| ==> init[k] == lines[k];
    }
  }

  /** The lines without their integer-split lines. */
  function WithoutSplits(lines: seq<Line>): (r: seq<Line>)
    ensures forall k :: 0 <= k < |r| ==> !r[k].IntSplitLine?
  {
    if lines == [] then []
    else
      var l := lines[|lines| - 1];
      WithoutSplits(lines[..|lines| - 1]) + (if l.IntSplitLine? then [] else [l])
  }

  /** The integer-split records do not reach the formula: dropping every
      integer-split line from a parse tree the reader accepts leaves the
      formula unchanged. */
  lemma {:induction false} ParseIgnoresSplitLines(lines: seq<Line>)
    requires Parse(lines).Ok?
    ensures Parse(WithoutSplits(lines)) == Parse(lines)
  {
    WithoutSplitsKeeps(lines);
    SplitsOkIff(WithoutSplits(lines));
  }

  lemma {:induction false} WithoutSplitsKeeps(lines: seq<Line>)
    ensures PrefixOf(WithoutSplits(lines)) == PrefixOf(lines)
    ensures MatrixOf(WithoutSplits(lines)) == MatrixOf(lines)
    ensures HeaderOf(WithoutSplits(lines)) == HeaderOf(lines)
  {
    if lines != [] {
      var init := lines[..|lines| - 1];
      var l := lines[|lines| - 1];
      WithoutSplitsKeeps(init);
      if !l.IntSplitLine? {
        var w := WithoutSplits(init) + [l];
        assert w[..|w| - 1] == WithoutSplits(init);
      } else {
        assert WithoutSplits(lines) == WithoutSplits(init);
      }
    }
  }
}
