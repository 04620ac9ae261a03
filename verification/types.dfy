/** The data model of the splitter library: a QDIMACS formula held as a flat
    signed prefix and a clause matrix, the integer-split records the reader
    collects, and the failures (panics) the reader can run into. */
module QdimacsTypes {

  /** A quantified Boolean formula. In `prefix` a negative entry is an
      existentially and a positive entry a universally quantified variable;
      `matrix` holds the clauses, each a sequence of signed literals; the two
      counts are the numbers written on the problem line. */
  datatype Formula = Formula(
    prefix: seq<int>,
    matrix: seq<seq<int>>,
    nrOfVariables: int,
    nrOfClauses: int)

  datatype IntegerSplitKind = LessThan | GreaterThan | Equals

  /** One integer-split directive: the comparison, the variables it ranges
      over and its targets (one integer, or one 0/1 digit list per pattern). */
  datatype IntegerSplit = IntegerSplit(
    kind: IntegerSplitKind,
    vars: seq<int>,
    target: seq<seq<int>>)

  /** The ways the reader stops with a panic instead of returning. */
  datatype ParseError =
    | MissingToken    // `next().unwrap()` on an exhausted token stream
    | UnknownPattern  // a comparison other than `<`, `>` or `=`
    | NonBinaryDigit  // a `=` target with a character other than 0 or 1
    | NotAnInteger    // a `<`/`>` target that does not read as an integer

  datatype Result<T> = Ok(value: T) | Err(error: ParseError)

  function Abs(x: int): nat
  {
    if x < 0 then -x else x
  }

  function DigitChar(d: nat): char
    requires d < 10
  {
    ('0' as int + d) as char
  }

  function NatText(n: nat): string
    decreases n
  {
    if n < 10 then [DigitChar(n)] else NatText(n / 10) + [DigitChar(n % 10)]
  }

  /** The decimal text of an integer, with a leading `-` when negative. */
  function IntText(x: int): string
  {
    if x < 0 then "-" + NatText(-x) else NatText(x)
  }

  /** Regrouping a concatenation of three sequences. */
  lemma ConcatAssoc<T>(x: seq<T>, y: seq<T>, z: seq<T>)
    ensures x + y + z == x + (y + z)
  {
  }
}
