/** The splitter: for a depth d, the 2^d variants of a formula that fix its
    first d prefix variables by unit clauses, one variant per split index,
    each written under a name spelling the index's bits as `t`/`f`. */
module Splitter {
  import opened QdimacsTypes
  import Writer

  function Pow2(n: nat): (r: nat)
    ensures r >= 1
  {
    if n == 0 then 1 else 2 * Pow2(n - 1)
  }

  /** Bit `i` of `v`, counting from the least significant bit. */
  predicate Bit(v: nat, i: nat)
  {
    if i == 0 then v % 2 == 1 else Bit(v / 2, i - 1)
  }

  /** The name of split index `v` at depth `d`: character `i` is `t` when
      bit `i` of `v` is set and `f` otherwise. */
  function SplitName(v: nat, d: nat): (r: string)
    ensures |r| == d
    ensures forall i :: 0 <= i < d ==> r[i] == if Bit(v, i) then 't' else 'f'
  {
    if d == 0 then [] else [if v % 2 == 1 then 't' else 'f'] + SplitName(v / 2, d - 1)
  }

  /** The unit literal that fixes variable `x`: positive when the bit is set. */
  function UnitLiteral(x: int, bit: bool): int
  {
    if bit then Abs(x) else -(Abs(x) as int)
  }

  /** The unit clauses split index `v` adds for the first `d` prefix entries. */
  function UnitClauses(p: seq<int>, v: nat, d: nat): (r: seq<seq<int>>)
    requires d <= |p|
    ensures |r| == d
    ensures forall i :: 0 <= i < d ==> r[i] == [UnitLiteral(p[i], Bit(v, i))]
  {
    if d == 0 then [] else UnitClauses(p, v, d - 1) + [[UnitLiteral(p[d - 1], Bit(v, d - 1))]]
  }

  lemma UnitClausesStep(matrix: seq<seq<int>>, original: seq<seq<int>>, p: seq<int>, v: nat, i: nat, lit: int)
    requires i < |p| && matrix == original + UnitClauses(p, v, i)
    requires lit == UnitLiteral(p[i], Bit(v, i))
    ensures matrix + [[lit]] == original + UnitClauses(p, v, i + 1)
  {
    assert UnitClauses(p, v, i + 1) == UnitClauses(p, v, i) + [[lit]];
  }

  /** `g` is the variant of `f` for split index `v` at depth `d`: the first
      `d` prefix entries become existential with the same variable, the rest
      of the prefix is untouched, the matrix gains one unit clause per split
      variable, and the header counts are copied unchanged. */
  predicate AssumedFrom(f: Formula, g: Formula, v: nat, d: nat)
  {
    && d <= |f.prefix|
    && |g.prefix| == |f.prefix|
    && (forall i :: 0 <= i < d ==> g.prefix[i] == -(Abs(f.prefix[i]) as int))
    && (forall i :: d <= i < |f.prefix| ==> g.prefix[i] == f.prefix[i])
    && g.matrix == f.matrix + UnitClauses(f.prefix, v, d)
    && g.nrOfVariables == f.nrOfVariables
    && g.nrOfClauses == f.nrOfClauses
  }

  /** Builds the variant for split index `v`, its output name and the text
      written under that name. */
  method AssumePrefixVars(f: Formula, filename: string, v: nat, depth: nat)
    returns (assumed: Formula, outName: string, contents: string)
    requires depth <= |f.prefix| && depth <= 32 && v < 0x1_0000_0000
    ensures AssumedFrom(f, assumed, v, depth)
    ensures outName == SplitName(v, depth) + ":" + filename
    ensures contents == Writer.DocumentText(assumed)
  {
    var prefix := f.prefix;
    var matrix := f.matrix;
    var namePrefix := new char[depth](_ => 'f');
    for i := 0 to depth
      invariant |prefix| == |f.prefix|
      invariant forall j :: 0 <= j < i ==> prefix[j] == -(Abs(f.prefix[j]) as int)
      invariant forall j :: i <= j < |prefix| ==> prefix[j] == f.prefix[j]
      invariant matrix == f.matrix + UnitClauses(f.prefix, v, i)
      invariant forall j :: 0 <= j < i ==> namePrefix[j] == if Bit(v, j) then 't' else 'f'
      invariant forall j :: i <= j < depth ==> namePrefix[j] == 'f'
    {
      var bit := Bit(v, i);
      if prefix[i] > 0 {
        prefix := prefix[i := -prefix[i]];
      }
      var absLit: int := Abs(prefix[i]);
      var lit := if bit then absLit else -absLit;
      if bit {
        namePrefix[i] := 't';
      }
      UnitClausesStep(matrix, f.matrix, f.prefix, v, i, lit);
      matrix := matrix + [[lit]];
    }
    assumed := Formula(prefix, matrix, f.nrOfVariables, f.nrOfClauses);
    assert namePrefix[..] == SplitName(v, depth);
    outName := namePrefix[..] + ":" + filename;
    contents := Writer.WriteQdimacs(assumed);
  }

  /** The depth the split loop uses: the requested depth, capped by the
      prefix length taken modulo 2^32 (the length is cast to 32 bits). */
  function ClampedDepth(requested: nat, len: nat): (d: nat)
    ensures d <= requested && d <= len
    ensures len < 0x1_0000_0000 ==> d == if requested < len then requested else len
  {
    var len32 := len % 0x1_0000_0000;
    if requested < len32 then requested else len32
  }

  /** One file the split loop writes. */
  datatype SplitOutput = SplitOutput(name: string, formula: Formula, contents: string)

  /** `out` is the file written for split index `v`: its name spells the
      index, its formula is the variant for the index, its contents are the
      emitter's text for that formula. */
  predicate Written(f: Formula, filename: string, depth: nat, v: nat, out: SplitOutput)
  {
    && out.name == SplitName(v, depth) + ":" + filename
    && AssumedFrom(f, out.formula, v, depth)
    && out.contents == Writer.DocumentText(out.formula)
  }

  /** `outputs` holds, at position `v`, the file written for split index
      `v`, for every index in [0, 2^depth). */
  predicate Enumerates(f: Formula, filename: string, depth: nat, outputs: seq<SplitOutput>)
  {
    && |outputs| == Pow2(depth)
    && forall v :: 0 <= v < |outputs| ==> Written(f, filename, depth, v, outputs[v])
  }

  /** The split loop: clamps the depth and writes one variant per split index
      in [0, 2^depth). */
  method SplitFormula(f: Formula, filename: string, requestedDepth: nat)
    returns (depth: nat, outputs: seq<SplitOutput>)
    requires requestedDepth < 0x1_0000_0000
    requires ClampedDepth(requestedDepth, |f.prefix|) < 32
    ensures depth == ClampedDepth(requestedDepth, |f.prefix|) && depth <= |f.prefix|
    ensures Enumerates(f, filename, depth, outputs)
  {
    depth := ClampedDepth(requestedDepth, |f.prefix|);
    var count := Pow2(depth);
    Pow2Le(depth, 32);
    Pow2Of32();
    outputs := [];
    for i := 0 to count
      invariant |outputs| == i
      invariant forall v :: 0 <= v < i ==> Written(f, filename, depth, v, outputs[v])
    {
      var assumed, outName, contents := AssumePrefixVars(f, filename, i, depth);
      var out := SplitOutput(outName, assumed, contents);
      assert Written(f, filename, depth, i, out);
      WrittenSnoc(f, filename, depth, outputs, out);
      outputs := outputs + [out];
    }
  }

  lemma WrittenSnoc(f: Formula, filename: string, depth: nat, outputs: seq<SplitOutput>, out: SplitOutput)
    requires forall v :: 0 <= v < |outputs| ==> Written(f, filename, depth, v, outputs[v])
    requires Written(f, filename, depth, |outputs|, out)
    ensures forall v :: 0 <= v < |outputs| + 1 ==> Written(f, filename, depth, v, (outputs + [out])[v])
  {
  }

  /** The split loop writes each name once. */
  lemma OutputNamesDistinct(f: Formula, filename: string, depth: nat, outputs: seq<SplitOutput>)
    requires Enumerates(f, filename, depth, outputs)
    ensures forall v, w :: 0 <= v < w < |outputs| ==> outputs[v].name != outputs[w].name
  {
    forall v, w | 0 <= v < w < |outputs| ensures outputs[v].name != outputs[w].name {
      assert Written(f, filename, depth, v, outputs[v]);
      assert Written(f, filename, depth, w, outputs[w]);
      SplitNamesDistinct(v, w, depth);
      NamesWithSuffix(SplitName(v, depth), SplitName(w, depth), filename);
    }
  }

  /** The split loop writes a file for every `t`/`f` assignment of the split
      variables. */
  lemma OutputNamesCover(f: Formula, filename: string, depth: nat, outputs: seq<SplitOutput>)
    requires Enumerates(f, filename, depth, outputs)
    ensures forall s :: FtString(s) && |s| == depth ==>
      exists v :: 0 <= v < |outputs| && outputs[v].name == s + ":" + filename
  {
    forall s | FtString(s) && |s| == depth
      ensures exists v :: 0 <= v < |outputs| && outputs[v].name == s + ":" + filename
    {
      SplitNamesCover(s);
      var v := NameIndex(s);
      assert Written(f, filename, 0 + depth, v, outputs[v]);
    }
  }

  /** At depth 0 the split loop writes the formula itself, once, under the
      name `:` followed by the input file name. */
  lemma OutputsAtDepthZero(f: Formula, filename: string, outputs: seq<SplitOutput>)
    requires Enumerates(f, filename, 0, outputs)
    ensures outputs == [SplitOutput(":" + filename, f, Writer.DocumentText(f))]
  {
    var out := outputs[0];
    assert Written(f, filename, 0, 0, out);
    assert out.formula == f by {
      DepthZeroIdentity(f, out.formula, 0);
    }
    assert out.name == ":" + filename by {
      assert SplitName(0, 0) == [];
    }
    assert outputs == [out];
  }

  // ------------------------------------------------------------ properties

  /** Every variant fixes each split variable once: in the `i`-th added unit
      clause the variable of prefix entry `i` appears positively exactly
      when the name's `i`-th character is `t`, and that entry is now
      existential with the same variable. */
  lemma UnitClauseMatchesName(f: Formula, g: Formula, v: nat, d: nat, i: nat)
    requires AssumedFrom(f, g, v, d) && i < d
    ensures |g.matrix| == |f.matrix| + d
    ensures g.matrix[|f.matrix| + i] == [if SplitName(v, d)[i] == 't' then Abs(f.prefix[i]) else -(Abs(f.prefix[i]) as int)]
    ensures g.prefix[i] <= 0 && Abs(g.prefix[i]) == Abs(f.prefix[i])
    ensures f.prefix[i] < 0 ==> g.prefix[i] == f.prefix[i]
  {
    assert g.matrix[|f.matrix| + i] == UnitClauses(f.prefix, v, d)[i];
  }

  /** At depth 0 the variant is the formula itself. */
  lemma DepthZeroIdentity(f: Formula, g: Formula, v: nat)
    requires AssumedFrom(f, g, v, 0)
    ensures g == f
  {
    assert g.prefix == f.prefix;
    assert g.matrix == f.matrix;
  }

  /** Two split indices below 2^d have different names. */
  lemma {:induction false} SplitNamesDistinct(v: nat, w: nat, d: nat)
    requires v < Pow2(d) && w < Pow2(d) && v != w
    ensures SplitName(v, d) != SplitName(w, d)
  {
    if d == 0 {
      assert false;
    } else if v % 2 == w % 2 {
      SplitNamesDistinct(v / 2, w / 2, d - 1);
      assert SplitName(v, d)[1..] == SplitName(v / 2, d - 1);
      assert SplitName(w, d)[1..] == SplitName(w / 2, d - 1);
    } else {
      assert SplitName(v, d)[0] != SplitName(w, d)[0];
    }
  }

  /** Different split indices below 2^d fix the split variables differently,
      when none of those variables is 0. */
  lemma DistinctAssumptions(f: Formula, g: Formula, h: Formula, v: nat, w: nat, d: nat)
    requires AssumedFrom(f, g, v, d) && AssumedFrom(f, h, w, d)
    requires v < Pow2(d) && w < Pow2(d) && v != w
    requires forall i :: 0 <= i < d ==> f.prefix[i] != 0
    ensures g.matrix != h.matrix
  {
    SplitNamesDistinct(v, w, d);
    var a, b := SplitName(v, d), SplitName(w, d);
    var i :| 0 <= i < d && a[i] != b[i];
    UnitClauseMatchesName(f, g, v, d, i);
    UnitClauseMatchesName(f, h, w, d, i);
    assert g.matrix[|f.matrix| + i] != h.matrix[|f.matrix| + i];
  }

  lemma NamesWithSuffix(a: string, b: string, filename: string)
    requires |a| == |b| && a != b
    ensures a + ":" + filename != b + ":" + filename
  {
    var i :| 0 <= i < |a| && a[i] != b[i];
    assert (a + ":" + filename)[i] != (b + ":" + filename)[i];
  }

  /** A string of `t` and `f` characters. */
  predicate FtString(s: string)
  {
    forall i :: 0 <= i < |s| ==> s[i] == 't' || s[i] == 'f'
  }

  /** The split index a `t`/`f` name spells, least significant bit first. */
  function NameIndex(s: string): nat
  {
    if s == [] then 0 else (if s[0] == 't' then 1 else 0) + 2 * NameIndex(s[1..])
  }

  /** Every `t`/`f` string of length d is the name of a split index below
      2^d: the split loop covers every assignment of the split variables. */
  lemma {:induction false} SplitNamesCover(s: string)
    requires FtString(s)
    ensures NameIndex(s) < Pow2(|s|) && SplitName(NameIndex(s), |s|) == s
  {
    if s != [] {
      var rest := s[1..];
      assert FtString(rest) by {
        forall i | 0 <= i < |rest| ensures rest[i] == 't' || rest[i] == 'f' {
          assert rest[i] == s[i + 1];
        }
      }
      SplitNamesCover(rest);
      var v := NameIndex(s);
      assert v / 2 == NameIndex(rest);
      assert (v % 2 == 1) == (s[0] == 't');
      assert SplitName(v, |s|) == [s[0]] + rest;
    }
  }

  lemma {:induction false} Pow2Le(n: nat, m: nat)
    requires n <= m
    ensures Pow2(n) <= Pow2(m)
  {
    if n < m {
      Pow2Le(n, m - 1);
    }
  }

  lemma {:induction false} Pow2Add(a: nat, b: nat)
    ensures Pow2(a + b) == Pow2(a) * Pow2(b)
  {
    if a > 0 {
      Pow2Add(a - 1, b);
    }
  }

  lemma Pow2Of32()
    ensures Pow2(32) == 0x1_0000_0000
  {
    assert Pow2(4) == 16;
    Pow2Add(4, 4);
    Pow2Add(8, 8);
    Pow2Add(16, 16);
  }

  lemma MulGrows(a: nat, b: int)
    requires b >= 1
    ensures a * b >= a
  {
  }
  lemma DivUnique(v: nat, d: nat, q: nat, r: nat)
    requires d >= 1 && v == d * q + r && r < d
    ensures v / d == q
  {
    var q0 := v / d;
    assert v == d * q0 + v % d;
    if q > q0 {
      MulGrows(d, q - q0);
    } else if q < q0 {
      MulGrows(d, q0 - q);
    }
  }
  lemma DivHalf(v: nat, k: nat)
    requires k >= 1
    ensures (v / 2) / k == v / (2 * k)
  {
    var q, r := v / (2 * k), v % (2 * k);
    assert v == (2 * k) * q + r;
    assert r == 2 * (r / 2) + r % 2;
    assert v == 2 * (k * q + r / 2) + r % 2 by {
      assert (2 * k) * q == 2 * (k * q);
    }
    DivUnique(v, 2, k * q + r / 2, r % 2);
    assert r / 2 < k;
    DivUnique(v / 2, k, q, r / 2);
  }
  /** `Bit` is the usual reading of bit `i`: the parity of `v / 2^i`. */
  lemma {:induction false} BitIsDiv(v: nat, i: nat)
    ensures Bit(v, i) <==> (v / Pow2(i)) % 2 == 1
  {
    if i > 0 {
      BitIsDiv(v / 2, i - 1);
      DivHalf(v, Pow2(i - 1));
    }
  }

  /** The header is copied, so a variant whose input header counted its
      clauses exactly declares fewer clauses than its matrix holds. */
  lemma HeaderUndercounts(f: Formula, g: Formula, v: nat, d: nat)
    requires AssumedFrom(f, g, v, d) && f.nrOfClauses == |f.matrix|
    ensures g.nrOfClauses == |g.matrix| - d
  {
  }
}
