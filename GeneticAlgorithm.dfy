/**
 * The genetic operators as the static methods of `GeneticAlgorithm` run
 * them: loops over jagged `double[][]` arrays, each proved against its
 * value-level counterpart in `GeneticSpec`. Every method that can fail
 * returns the exception it raises instead.
 *
 * Each method of the source makes its own `System.Random`; its draws are
 * the function parameters `pick`, `division`, `test` and `sample`, as in
 * `GeneticSpec`.
 */
module GeneticAlgorithm {
  import opened Runtime
  import opened GeneticSpec

  /** The gene vectors a jagged array currently holds. */
  ghost function Rows(a: array<array<real>>): (p: Population)
    reads a, a[..]
    ensures |p| == a.Length && forall k :: 0 <= k < a.Length ==> p[k] == a[k][..]
  {
    seq(a.Length, k requires 0 <= k < a.Length reads a, a[..] => a[k][..])
  }

  /* ---------------------------------------------------------------- */
  /* Roulette selection                                               */
  /* ---------------------------------------------------------------- */

  /** The first loop of RouletteSelect: the fitness total, accumulated in an `int`. */
  method SumFitness(fitness: array<Int32>) returns (total: Int32)
    ensures total == TotalFitness(fitness[..])
  {
    total := 0;
    for i := 0 to fitness.Length
      invariant total == WrappedSum(fitness[..], i)
    {
      total := Wrap32(total + fitness[i]);
    }
  }

  /**
   * The scan of the selection loop for one draw, with fitness read at the
   * scanned individual `j`: the first individual at which the accumulated
   * fitness exceeds the draw, or 0 when there is none.
   */
  method PickParent(fitness: array<Int32>, draw: int) returns (k: nat)
    ensures k == Pick(fitness[..], draw)
  {
    k := 0;
    var accumulated: Int32 := 0;
    var j := 0;
    while j < fitness.Length
      invariant j <= fitness.Length && k == 0
      invariant PickFrom(fitness[..], draw, j, accumulated) == Pick(fitness[..], draw)
    {
      accumulated := Wrap32(accumulated + fitness[j]);
      if draw < accumulated {
        k := j;
        break;
      }
      j := j + 1;
    }
  }

  /**
   * Roulette selection: one parent per fitness value, drawn with
   * `pick(i, total)` for slot `i`. The parents are the gene vectors
   * themselves, not copies.
   */
  method RouletteSelect(genes: array<array<real>>, fitness: array<Int32>, pick: (nat, int) -> int)
    returns (r: Result<array<array<real>>>)
    ensures var s := Select(old(Rows(genes)), old(fitness[..]), pick);
      (r.Failure? <==> s.Failure?) && (r.Failure? ==> r.error == s.error)
    ensures r.Success? ==> fresh(r.value) && Rows(r.value) == Select(old(Rows(genes)), old(fitness[..]), pick).value
    ensures r.Success? ==>
              forall i :: 0 <= i < r.value.Length ==>
                r.value[i] == genes[Pick(old(fitness[..]), pick(i, TotalFitness(old(fitness[..]))))]
  {
    var total := SumFitness(fitness);
    var length := fitness.Length;
    var parentIndex := new nat[length];
    for i := 0 to length
      invariant total == TotalFitness(fitness[..]) && (i > 0 ==> total >= 0)
      invariant forall k :: 0 <= k < i ==> parentIndex[k] == Pick(fitness[..], pick(k, total))
    {
      if total < 0 {
        // Random.Next(0, total) throws
        return Failure(ArgumentOutOfRange);
      }
      parentIndex[i] := PickParent(fitness, pick(i, total));
    }
    var chosen: seq<array<real>> := [];
    for i := 0 to length
      invariant |chosen| == i
      invariant forall k :: 0 <= k < i ==> parentIndex[k] < genes.Length && chosen[k] == genes[parentIndex[k]]
    {
      if parentIndex[i] >= genes.Length {
        assert Pick(fitness[..], pick(i, total)) >= |Rows(genes)|;
        return Failure(IndexOutOfRange);
      }
      chosen := chosen + [genes[parentIndex[i]]];
    }
    var parents := new array<real>[length](k requires 0 <= k < length => chosen[k]);
    assert forall k :: 0 <= k < length ==> Pick(fitness[..], pick(k, total)) < |Rows(genes)|;
    assert Rows(parents) == Select(Rows(genes), fitness[..], pick).value;
    return Success(parents);
  }

  /* ---------------------------------------------------------------- */
  /* Crossover                                                        */
  /* ---------------------------------------------------------------- */

  /** `n` new, distinct gene vectors of `len` zero genes each. */
  method AllocateRows(n: nat, len: nat) returns (rows: array<array<real>>)
    ensures fresh(rows) && rows.Length == n
    ensures forall k :: 0 <= k < n ==> fresh(rows[k]) && rows[k].Length == len && rows[k][..] == seq(len, _ => 0.0)
    ensures forall k, m :: 0 <= k < m < n ==> rows[k] != rows[m]
  {
    var made: seq<array<real>> := [];
    while |made| < n
      invariant |made| <= n
      invariant forall k :: 0 <= k < |made| ==> fresh(made[k]) && made[k].Length == len && made[k][..] == seq(len, _ => 0.0)
      invariant forall k, m :: 0 <= k < m < |made| ==> made[k] != made[m]
    {
      var row := new real[len](_ => 0.0);
      made := made + [row];
    }
    rows := new array<real>[n](k requires 0 <= k < n => made[k]);
  }

  /**
   * The gene loop for a pair of parents `p` and `q` and their children
   * `x` and `y`: inside the window each child takes the other parent's
   * gene, outside it its own. Every gene reads both parents, so a parent
   * shorter than the children is an index out of range.
   */
  method CrossPair(p: array<real>, q: array<real>, x: array<real>, y: array<real>, w: Window, len: nat)
    returns (ok: bool)
    requires x != y && x.Length == len && y.Length == len
    requires p != x && p != y && q != x && q != y
    modifies x, y
    ensures ok <==> len <= p.Length && len <= q.Length
    ensures ok ==> x[..] == Child(p[..], q[..], w, len) && y[..] == Child(q[..], p[..], w, len)
  {
    for j := 0 to len
      invariant j <= p.Length && j <= q.Length
      invariant forall t :: 0 <= t < j ==> x[t] == if w.lo <= t < w.hi then q[t] else p[t]
      invariant forall t :: 0 <= t < j ==> y[t] == if w.lo <= t < w.hi then p[t] else q[t]
    {
      if j >= p.Length || j >= q.Length {
        return false;
      }
      if w.lo <= j < w.hi {
        x[j] := q[j];
        y[j] := p[j];
      } else {
        x[j] := p[j];
        y[j] := q[j];
      }
    }
    assert x[..] == Child(p[..], q[..], w, len);
    assert y[..] == Child(q[..], p[..], w, len);
    return true;
  }

  /** `row` holds the crossed genes of child `k`, whose partner has enough genes. */
  ghost predicate RowCrossed(row: seq<real>, rows: Population, windows: nat -> Window, len: nat, k: nat) {
    k < |rows| && len <= |rows[k]| && (len == 0 || (Partner(k) < |rows| && len <= |rows[Partner(k)]|)) &&
    row == if len == 0 then [] else Child(rows[k], rows[Partner(k)], windows(k / 2), len)
  }

  /** Children `0 .. i - 1` hold their crossed genes. */
  ghost predicate CrossedUpTo(children: array<array<real>>, rows: Population, windows: nat -> Window, len: nat, i: nat)
    reads children, children[..]
  {
    children.Length == |rows| &&
    forall k :: 0 <= k < i && k < |rows| ==> RowCrossed(children[k][..], rows, windows, len, k)
  }

  /**
   * The body of the pair loop for the pair (`i`, `i + 1`): its division
   * draw, then its gene loop, or, for an unpaired last individual, the read
   * of `parents[i + 1]` at its first gene.
   */
  method CrossStep(parents: array<array<real>>, children: array<array<real>>, i: nat,
                   division: (nat, nat) -> int, crossover: Crossover, ghost rows: Population)
    returns (ok: bool)
    requires i % 2 == 0 && i < parents.Length == children.Length && Rows(parents) == rows
    requires forall k :: 0 <= k < children.Length ==> children[k].Length == parents[0].Length
    requires forall k, m :: 0 <= k < m < children.Length ==> children[k] != children[m]
    requires forall k :: 0 <= k < children.Length ==> children[k] !in parents[..]
    requires CrossedUpTo(children, rows, Windows(division, |rows[0]|, crossover), |rows[0]|, i)
    modifies set k | i <= k <= i + 1 && k < children.Length :: children[k]
    ensures Rows(parents) == rows
    ensures ok <==> |rows[0]| == 0 || (i + 1 < |rows| && |rows[0]| <= |rows[i]| && |rows[0]| <= |rows[i + 1]|)
    ensures ok ==> CrossedUpTo(children, rows, Windows(division, |rows[0]|, crossover), |rows[0]|, i + 2)
  {
    var len := parents[0].Length;
    ghost var windows := Windows(division, len, crossover);
    var d := division(i / 2, DivisionBound(len, crossover));
    var w := PairWindow(d, len, crossover);
    assert w == windows(i / 2);
    if i + 1 >= parents.Length {
      if len > 0 {
        return false;
      }
      ok := true;
    } else {
      assert children[i] !in parents[..] && children[i + 1] !in parents[..];
      ok := CrossPair(parents[i], parents[i + 1], children[i], children[i + 1], w, len);
    }
    assert Rows(parents) == rows;
    if ok {
      assert Partner(i) == i + 1 && Partner(i + 1) == i && (i + 1) / 2 == i / 2;
      forall k | 0 <= k < i + 2 && k < |rows|
        ensures RowCrossed(children[k][..], rows, windows, len, k)
      {
        if k < i {
          assert children[k][..] == old(children[k][..]);
        }
      }
    }
  }

  /** Children that all hold their crossed genes had parents with enough genes. */
  lemma CrossedCovers(children: array<array<real>>, rows: Population, windows: nat -> Window, len: nat)
    requires CrossedUpTo(children, rows, windows, len, |rows|)
    ensures Covers(rows, len)
  {
    forall k | 0 <= k < |rows|
      ensures len <= |rows[k]|
    {
      assert RowCrossed(children[k][..], rows, windows, len, k);
    }
  }

  /** Children that all hold their crossed genes are the exchange of their parents. */
  lemma CrossedAll(children: array<array<real>>, rows: Population, windows: nat -> Window, len: nat)
    requires CrossedUpTo(children, rows, windows, len, |rows|) && (|rows| % 2 == 0 || len == 0)
    ensures Covers(rows, len)
    ensures Rows(children) == Exchange(rows, windows, len)
  {
    CrossedCovers(children, rows, windows, len);
    forall k | 0 <= k < |rows|
      ensures children[k][..] == Exchange(rows, windows, len)[k]
    {
      assert RowCrossed(children[k][..], rows, windows, len, k);
    }
  }

  /**
   * The pair loop: one division draw `division(i / 2, bound)` per pair
   * (`i`, `i + 1`), then the pair's gene loop, into children allocated
   * with the first parent's gene length.
   */
  method CrossAllPairs(parents: array<array<real>>, children: array<array<real>>, division: (nat, nat) -> int,
                       crossover: Crossover, ghost rows: Population)
    returns (ok: bool)
    requires 0 < parents.Length == children.Length && Rows(parents) == rows
    requires forall k :: 0 <= k < children.Length ==> children[k].Length == parents[0].Length
    requires forall k, m :: 0 <= k < m < children.Length ==> children[k] != children[m]
    requires forall k :: 0 <= k < children.Length ==> children[k] !in parents[..]
    modifies children[..]
    ensures ok ==> CrossedUpTo(children, rows, Windows(division, |rows[0]|, crossover), |rows[0]|, |rows|)
    ensures ok <==> |rows[0]| == 0 || (|rows| % 2 == 0 && Covers(rows, |rows[0]|))
  {
    var populationSize, geneLength := parents.Length, parents[0].Length;
    ghost var windows := Windows(division, geneLength, crossover);
    var i := 0;
    while i < populationSize
      invariant i % 2 == 0 && i <= populationSize + 1 && (geneLength > 0 ==> i <= populationSize)
      invariant Rows(parents) == rows
      invariant CrossedUpTo(children, rows, windows, geneLength, i)
      decreases populationSize + 1 - i
    {
      ok := CrossStep(parents, children, i, division, crossover, rows);
      if !ok {
        if i + 1 < populationSize {
          assert !Covers(rows, geneLength) by {
            assert |rows[i]| < geneLength || |rows[i + 1]| < geneLength;
          }
        } else {
          assert populationSize % 2 == 1;
        }
        return;
      }
      i := i + 2;
    }
    ok := true;
    CrossedCovers(children, rows, windows, geneLength);
  }

  /** One- or two-point crossover: the children, then the pair loop. */
  method CrossoverWith(parents: array<array<real>>, division: (nat, nat) -> int, crossover: Crossover)
    returns (r: Result<array<array<real>>>)
    ensures var c := Cross(old(Rows(parents)), division, crossover);
      (r.Failure? <==> c.Failure?) && (r.Failure? ==> r.error == c.error)
    ensures r.Success? ==> fresh(r.value) && Rows(r.value) == Cross(old(Rows(parents)), division, crossover).value
    ensures r.Success? ==> forall k :: 0 <= k < r.value.Length ==> fresh(r.value[k])
    ensures r.Success? ==> forall k, m :: 0 <= k < m < r.value.Length ==> r.value[k] != r.value[m]
  {
    if parents.Length == 0 {
      return Failure(IndexOutOfRange);
    }
    var populationSize, geneLength := parents.Length, parents[0].Length;
    ghost var rows := Rows(parents);
    var children := AllocateRows(populationSize, geneLength);
    var ok := CrossAllPairs(parents, children, division, crossover, rows);
    if !ok {
      return Failure(IndexOutOfRange);
    }
    CrossedAll(children, rows, Windows(division, geneLength, crossover), geneLength);
    return Success(children);
  }

  /** One-point crossover: every pair exchanges its genes from the division draw on. */
  method CrossoverOnePoint(parents: array<array<real>>, division: (nat, nat) -> int)
    returns (r: Result<array<array<real>>>)
    ensures var c := Cross(old(Rows(parents)), division, OnePoint);
      (r.Failure? <==> c.Failure?) && (r.Failure? ==> r.error == c.error)
    ensures r.Success? ==> fresh(r.value) && Rows(r.value) == Cross(old(Rows(parents)), division, OnePoint).value
    ensures r.Success? ==> forall k :: 0 <= k < r.value.Length ==> fresh(r.value[k])
    ensures r.Success? ==> forall k, m :: 0 <= k < m < r.value.Length ==> r.value[k] != r.value[m]
  {
    r := CrossoverWith(parents, division, OnePoint);
  }

  /** Two-point crossover: every pair exchanges half of its genes, from the division draw on. */
  method CrossoverTwoPoint(parents: array<array<real>>, division: (nat, nat) -> int)
    returns (r: Result<array<array<real>>>)
    ensures var c := Cross(old(Rows(parents)), division, TwoPoint);
      (r.Failure? <==> c.Failure?) && (r.Failure? ==> r.error == c.error)
    ensures r.Success? ==> fresh(r.value) && Rows(r.value) == Cross(old(Rows(parents)), division, TwoPoint).value
    ensures r.Success? ==> forall k :: 0 <= k < r.value.Length ==> fresh(r.value[k])
    ensures r.Success? ==> forall k, m :: 0 <= k < m < r.value.Length ==> r.value[k] != r.value[m]
  {
    r := CrossoverWith(parents, division, TwoPoint);
  }

  /* ---------------------------------------------------------------- */
  /* Mutation                                                         */
  /* ---------------------------------------------------------------- */

  /** The gene loop of individual `i`, writing into its own new row. */
  method MutateRow(gene: array<real>, mutated: array<real>, i: nat, rate: real,
                   test: (nat, nat) -> real, sample: (nat, nat) -> real, uniform: bool)
    returns (ok: bool)
    requires gene != mutated
    modifies mutated
    ensures ok <==> RowReads(gene[..], i, mutated.Length, rate, test, uniform)
    ensures ok ==> mutated[..] == MutatedRow(gene[..], i, mutated.Length, rate, test, sample, uniform)
  {
    for j := 0 to mutated.Length
      invariant RowReads(gene[..], i, j, rate, test, uniform)
      invariant mutated[..j] == MutatedRow(gene[..], i, j, rate, test, sample, uniform)
    {
      if test(i, j) < rate {
        if uniform {
          if j >= gene.Length {
            assert !RowReads(gene[..], i, mutated.Length, rate, test, uniform);
            return false;
          }
          mutated[j] := gene[j] + sample(i, j);
          if mutated[j] > 1.0 {
            mutated[j] := mutated[j] - 1.0;
          }
        } else {
          mutated[j] := sample(i, j);
        }
      } else {
        if j >= gene.Length {
          assert !RowReads(gene[..], i, mutated.Length, rate, test, uniform);
          return false;
        }
        mutated[j] := gene[j];
      }
      assert mutated[..j + 1] == mutated[..j] + [mutated[j]];
      assert MutatedRow(gene[..], i, j + 1, rate, test, sample, uniform)
          == MutatedRow(gene[..], i, j, rate, test, sample, uniform) + [mutated[j]];
    }
    assert mutated[..] == mutated[..mutated.Length];
    return true;
  }

  /**
   * Random-reset (`uniform` false) or uniform mutation, with the rows of
   * the result allocated before they are written.
   */
  method MutateWith(genes: array<array<real>>, rate: real, test: (nat, nat) -> real, sample: (nat, nat) -> real,
                    uniform: bool)
    returns (r: Result<array<array<real>>>)
    ensures var m := Mutate(old(Rows(genes)), rate, test, sample, uniform);
      (r.Failure? <==> m.Failure?) && (r.Failure? ==> r.error == m.error)
    ensures r.Success? ==> fresh(r.value) && Rows(r.value) == Mutate(old(Rows(genes)), rate, test, sample, uniform).value
    ensures r.Success? ==> forall k :: 0 <= k < r.value.Length ==> fresh(r.value[k])
    ensures r.Success? ==> forall k, m :: 0 <= k < m < r.value.Length ==> r.value[k] != r.value[m]
  {
    if genes.Length == 0 {
      return Failure(IndexOutOfRange);
    }
    var populationSize, geneLength := genes.Length, genes[0].Length;
    var mutated := AllocateRows(populationSize, geneLength);
    ghost var rows := Rows(genes);
    for i := 0 to populationSize
      invariant Rows(genes) == rows
      invariant forall k :: 0 <= k < populationSize ==> fresh(mutated[k]) && mutated[k].Length == geneLength
      invariant forall k, m :: 0 <= k < m < populationSize ==> mutated[k] != mutated[m]
      invariant forall k :: 0 <= k < i ==>
                  RowReads(rows[k], k, geneLength, rate, test, uniform) &&
                  mutated[k][..] == MutatedRow(rows[k], k, geneLength, rate, test, sample, uniform)
    {
      var ok := MutateRow(genes[i], mutated[i], i, rate, test, sample, uniform);
      if !ok {
        return Failure(IndexOutOfRange);
      }
    }
    assert Rows(mutated) == Mutated(rows, geneLength, rate, test, sample, uniform);
    return Success(mutated);
  }

  /** Random-reset mutation: a mutated gene becomes its sample draw. */
  method MutateRandom(genes: array<array<real>>, rate: real, test: (nat, nat) -> real, sample: (nat, nat) -> real)
    returns (r: Result<array<array<real>>>)
    ensures var m := Mutate(old(Rows(genes)), rate, test, sample, false);
      (r.Failure? <==> m.Failure?) && (r.Failure? ==> r.error == m.error)
    ensures r.Success? ==> fresh(r.value) && Rows(r.value) == Mutate(old(Rows(genes)), rate, test, sample, false).value
    ensures r.Success? ==> forall k :: 0 <= k < r.value.Length ==> fresh(r.value[k])
    ensures r.Success? ==> forall k, m :: 0 <= k < m < r.value.Length ==> r.value[k] != r.value[m]
  {
    r := MutateWith(genes, rate, test, sample, false);
  }

  /** Uniform mutation: a mutated gene gains its sample draw, wrapped back below 1. */
  method MutateUniform(genes: array<array<real>>, rate: real, test: (nat, nat) -> real, sample: (nat, nat) -> real)
    returns (r: Result<array<array<real>>>)
    ensures var m := Mutate(old(Rows(genes)), rate, test, sample, true);
      (r.Failure? <==> m.Failure?) && (r.Failure? ==> r.error == m.error)
    ensures r.Success? ==> fresh(r.value) && Rows(r.value) == Mutate(old(Rows(genes)), rate, test, sample, true).value
    ensures r.Success? ==> forall k :: 0 <= k < r.value.Length ==> fresh(r.value[k])
    ensures r.Success? ==> forall k, m :: 0 <= k < m < r.value.Length ==> r.value[k] != r.value[m]
  {
    r := MutateWith(genes, rate, test, sample, true);
  }

  /**
   * Either mutation as written at lines 191 and 213: the outer array of
   * the result is allocated but its rows never are, so the first gene
   * written, `mutatedGenes[0][0]`, is stored through a null row. The
   * right-hand side before it reads at most `genes[0][0]`, which exists
   * whenever there is a gene to write. Only gene vectors of length 0
   * escape, with a result whose rows are all null. Both loops therefore
   * stop in their first pass: the method amounts to a failure whenever
   * `genes[0]` has a gene. `rate` and `test` only choose which of the two
   * stores is reached, and both of them fail, so neither is ever read.
   */
  method MutateAsWritten(genes: array<array<real>>, rate: real, test: (nat, nat) -> real)
    returns (r: Result<array<array?<real>>>)
    ensures r.Failure? <==> genes.Length == 0 || genes[0].Length > 0
    ensures r.Failure? ==> r.error == if genes.Length == 0 then IndexOutOfRange else NullReference
    ensures r.Success? ==> r.value.Length == genes.Length && forall k :: 0 <= k < r.value.Length ==> r.value[k] == null
  {
    if genes.Length == 0 {
      return Failure(IndexOutOfRange);
    }
    var populationSize, geneLength := genes.Length, genes[0].Length;
    var mutatedGenes := new array?<real>[populationSize](_ => null);
    for i := 0 to populationSize
      invariant geneLength == 0 || i == 0
      invariant forall k :: 0 <= k < populationSize ==> mutatedGenes[k] == null
    {
      for j := 0 to geneLength
      {
        // Both branches, test(i, j) < rate or not, store through the null row mutatedGenes[i].
        assert i == 0 && j < genes[i].Length && mutatedGenes[i] == null;
        return Failure(NullReference);
      }
    }
    return Success(mutatedGenes);
  }

  /* ---------------------------------------------------------------- */
  /* One generation                                                   */
  /* ---------------------------------------------------------------- */

  /**
   * Compute: selection, crossover and mutation in turn, each with its own
   * draws. The children are discarded, so the outcome is all that leaves
   * the method.
   */
  method Compute(genes: array<array<real>>, fitness: array<Int32>, selection: Selection, crossover: Crossover,
                 mutation: Mutation, rate: real, pick: (nat, int) -> int, division: (nat, nat) -> int,
                 test: (nat, nat) -> real, sample: (nat, nat) -> real)
    returns (o: Outcome)
    ensures o == Generation(old(Rows(genes)), old(fitness[..]), selection, crossover, mutation, rate, pick, division, test, sample)
  {
    if genes.Length == 0 {
      // genes[0].Length
      return Fail(IndexOutOfRange);
    }
    ghost var rows, f := Rows(genes), fitness[..];
    GenerationOutcome(rows, f, selection, crossover, mutation, rate, pick, division, test, sample);
    ghost var selection' := if selection == Roulette then Select(rows, f, pick) else Success(rows);
    var parents := genes;
    if selection == Roulette {
      var selected := RouletteSelect(genes, fitness, pick);
      if selected.Failure? {
        return Fail(selected.error);
      }
      parents := selected.value;
    }
    assert Rows(parents) == selection'.value;
    var children;
    if crossover == OnePoint {
      children := CrossoverOnePoint(parents, division);
    } else {
      children := CrossoverTwoPoint(parents, division);
    }
    assert children.Failure? <==> Cross(selection'.value, division, crossover).Failure?;
    if children.Failure? {
      return Fail(children.error);
    }
    // Mutation reads only genes that crossover wrote, so it cannot fail here.
    MutateAfterCross(selection'.value, division, crossover, rate, test, sample, mutation == Uniform);
    assert Rows(children.value) == Cross(selection'.value, division, crossover).value;
    if mutation == Random {
      var mutated := MutateRandom(children.value, rate, test, sample);
      assert mutated.Success?;
    } else if mutation == Uniform {
      var mutated := MutateUniform(children.value, rate, test, sample);
      assert mutated.Success?;
    }
    return Pass;
  }
}
