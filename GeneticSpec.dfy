/**
 * Value-level specification of the genetic operators: what roulette
 * selection picks, which genes one- and two-point crossover exchange, what
 * random-reset and uniform mutation produce, and what one generation of
 * `Compute` does with them. Each random draw is a parameter: the value
 * `System.Random` returns at that call, a function of the call's position
 * and of the bound it was called with.
 */
module GeneticSpec {
  import opened Runtime

  /** A population: one gene vector per individual. */
  type Population = seq<seq<real>>

  /** The selection methods; only roulette selection is implemented. */
  datatype Selection = Roulette | Tournament | Truncate

  /** The crossover methods. */
  datatype Crossover = OnePoint | TwoPoint

  /** The mutation methods; Gaussian mutation is not implemented and does nothing. */
  datatype Mutation = Random | Uniform | Gaussian

  /* ---------------------------------------------------------------- */
  /* Roulette selection                                               */
  /* ---------------------------------------------------------------- */

  /** The sum of the first `n` fitness values. */
  function Sum(f: seq<int>, n: nat): int
    requires n <= |f|
  {
    if n == 0 then 0 else Sum(f, n - 1) + f[n - 1]
  }

  /** The same sum accumulated in a C# `int`, which wraps around on overflow. */
  function WrappedSum(f: seq<int>, n: nat): (r: Int32)
    requires n <= |f|
    ensures (r - Sum(f, n)) % 0x1_0000_0000 == 0
  {
    if n == 0 then 0 else Wrap32(WrappedSum(f, n - 1) + f[n - 1])
  }

  /** The total fitness the first loop of RouletteSelect computes. */
  function TotalFitness(f: seq<int>): (total: Int32)
    ensures (total - Sum(f, |f|)) % 0x1_0000_0000 == 0
  {
    WrappedSum(f, |f|)
  }

  predicate NonNegative(f: seq<int>) {
    forall k :: 0 <= k < |f| ==> 0 <= f[k]
  }

  /** With non-negative fitness, prefix sums grow. */
  lemma {:induction false} SumMono(f: seq<int>, m: nat, n: nat)
    requires NonNegative(f) && m <= n <= |f|
    ensures 0 <= Sum(f, m) <= Sum(f, n)
  {
    if m < n {
      SumMono(f, m, n - 1);
    } else if m > 0 {
      SumMono(f, m - 1, m);
    }
  }

  /** Non-negative fitness whose sum fits in an `int` is summed without wrapping. */
  lemma {:induction false} WrappedSumExact(f: seq<int>, n: nat)
    requires NonNegative(f) && Sum(f, |f|) <= Int32Max && n <= |f|
    ensures WrappedSum(f, n) == Sum(f, n)
  {
    if n > 0 {
      WrappedSumExact(f, n - 1);
      SumMono(f, n, |f|);
      SumMono(f, n - 1, n);
    }
  }

  /**
   * The scan of the selection loop from individual `j` on, `acc` being the
   * fitness accumulated so far in an `int`: the first individual at which
   * the accumulated fitness exceeds the draw, or 0, the default entry of
   * `parentIndex`, when there is none.
   */
  function PickFrom(f: seq<int>, draw: int, j: nat, acc: int): (k: nat)
    ensures k == 0 || j <= k < |f|
    decreases |f| - j
  {
    if j >= |f| then 0
    else
      var next := Wrap32(acc + f[j]);
      if draw < next then j else PickFrom(f, draw, j + 1, next)
  }

  /** The individual roulette selection picks for one draw. */
  function Pick(f: seq<int>, draw: int): (k: nat)
    ensures |f| > 0 ==> k < |f|
    ensures |f| == 0 ==> k == 0
  {
    PickFrom(f, draw, 0, 0)
  }

  lemma {:induction false} PickFromInterval(f: seq<int>, draw: int, j: nat, acc: int)
    requires NonNegative(f) && Sum(f, |f|) <= Int32Max
    requires j <= |f| && acc == Sum(f, j) && acc <= draw < Sum(f, |f|)
    ensures var k := PickFrom(f, draw, j, acc); j <= k < |f| && Sum(f, k) <= draw < Sum(f, k + 1)
    decreases |f| - j
  {
    assert j < |f|;
    SumMono(f, j, j + 1);
    SumMono(f, j + 1, |f|);
    var next := acc + f[j];
    assert Wrap32(acc + f[j]) == next;
    if draw >= next {
      PickFromInterval(f, draw, j + 1, next);
    }
  }

  /**
   * With non-negative fitness whose total fits in an `int`, a draw in
   * [0, total) picks the one individual whose slice of the accumulated
   * fitness contains the draw; that individual's fitness is positive, so a
   * zero-fitness individual is never picked.
   */
  lemma PickInterval(f: seq<int>, draw: int)
    requires NonNegative(f) && Sum(f, |f|) <= Int32Max && 0 <= draw < Sum(f, |f|)
    ensures Pick(f, draw) < |f|
    ensures Sum(f, Pick(f, draw)) <= draw < Sum(f, Pick(f, draw) + 1)
    ensures f[Pick(f, draw)] > 0
    ensures forall k :: 0 <= k < |f| && Sum(f, k) <= draw < Sum(f, k + 1) ==> k == Pick(f, draw)
  {
    PickFromInterval(f, draw, 0, 0);
    var p := Pick(f, draw);
    forall k | 0 <= k < |f| && Sum(f, k) <= draw < Sum(f, k + 1)
      ensures k == p
    {
      if k < p {
        SumMono(f, k + 1, p);
      } else if k > p {
        SumMono(f, p + 1, k);
      }
    }
  }

  /** With all fitness zero the total is 0, `Next(0, 0)` draws 0, no individual is reached and individual 0 is picked. */
  lemma PickZeroTotal(f: seq<int>, draw: int)
    requires NonNegative(f) && Sum(f, |f|) == 0
    requires NextContract(draw, 0, TotalFitness(f))
    ensures TotalFitness(f) == 0 && draw == 0 && Pick(f, draw) == 0
  {
    WrappedSumExact(f, |f|);
    PickFromZero(f, 0);
  }

  lemma {:induction false} PickFromZero(f: seq<int>, j: nat)
    requires NonNegative(f) && Sum(f, |f|) == 0 && j <= |f|
    ensures PickFrom(f, 0, j, 0) == 0
    decreases |f| - j
  {
    if j < |f| {
      SumMono(f, j, j + 1);
      SumMono(f, j + 1, |f|);
      PickFromZero(f, j + 1);
    }
  }

  /** Fitness 1, 2, 3, 4 accumulates to 1, 3, 6, 10: draw 9 falls in the last slice, draw 0 in the first. */
  lemma PickScenario()
    ensures Pick([1, 2, 3, 4], 9) == 3 && Pick([1, 2, 3, 4], 0) == 0 && Pick([1, 2, 3, 4], 3) == 2
  {
    var f := [1, 2, 3, 4];
    assert PickFrom(f, 9, 2, 3) == PickFrom(f, 9, 3, 6);
    assert PickFrom(f, 9, 1, 1) == PickFrom(f, 9, 2, 3);
    assert PickFrom(f, 3, 1, 1) == PickFrom(f, 3, 2, 3);
  }

  /**
   * The scan as written at line 89, which adds `fitness[i]`, the fitness
   * of the slot being filled, at every step instead of `fitness[j]`.
   */
  function PickAsWritten(f: seq<int>, i: nat, draw: int): (k: nat)
    requires i < |f|
    ensures k < |f|
  {
    Pick(seq(|f|, _ => f[i]), draw)
  }

  /**
   * Fitness 0, 5 and draw 3 (in [0, 5)): as written, slot 0 accumulates
   * 0 at every step and picks the zero-fitness individual 0, where the
   * scan over `fitness[j]` picks individual 1.
   */
  lemma PickAsWrittenDiverges()
    ensures NextContract(3, 0, TotalFitness([0, 5]))
    ensures PickAsWritten([0, 5], 0, 3) == 0 && Pick([0, 5], 3) == 1
  {
    var g := seq(2, _ => [0, 5][0]);
    assert g == [0, 0];
    assert PickFrom(g, 3, 0, 0) == PickFrom(g, 3, 1, 0);
  }

  /**
   * Roulette selection: the total fitness, one draw in [0, total) per
   * slot, and the gene vector of the individual picked for it. A negative
   * total makes the first draw throw; a pick beyond the gene vectors is
   * an index out of range.
   */
  function Select(rows: Population, f: seq<int>, pick: (nat, int) -> int): (r: Result<Population>)
    ensures r.Failure? ==> r.error == (if |f| > 0 && TotalFitness(f) < 0 then ArgumentOutOfRange else IndexOutOfRange)
    ensures r.Success? ==> |r.value| == |f| && forall i :: 0 <= i < |f| ==> r.value[i] in rows
  {
    var total := TotalFitness(f);
    if |f| > 0 && total < 0 then Failure(ArgumentOutOfRange)
    else if exists i :: 0 <= i < |f| && Pick(f, pick(i, total)) >= |rows| then Failure(IndexOutOfRange)
    else Success(seq(|f|, i requires 0 <= i < |f| => rows[Pick(f, pick(i, total))]))
  }

  /** Every parent is one of the gene vectors; selection fails exactly on a negative total or a pick past the gene vectors. */
  lemma SelectParents(rows: Population, f: seq<int>, pick: (nat, int) -> int)
    ensures Select(rows, f, pick).Success? ==>
              |Select(rows, f, pick).value| == |f| &&
              forall i :: 0 <= i < |f| ==> Select(rows, f, pick).value[i] in rows
    ensures |f| <= |rows| && (|f| == 0 || TotalFitness(f) >= 0) ==> Select(rows, f, pick).Success?
  {
  }

  /** With all fitness zero every slot gets individual 0. */
  lemma SelectZeroFitness(rows: Population, f: seq<int>, pick: (nat, int) -> int)
    requires NonNegative(f) && Sum(f, |f|) == 0 && 0 < |f| <= |rows|
    requires forall i, t :: 0 <= t ==> NextContract(pick(i, t), 0, t)
    ensures Select(rows, f, pick) == Success(seq(|f|, _ => rows[0]))
  {
    WrappedSumExact(f, |f|);
    forall i | 0 <= i < |f|
      ensures Pick(f, pick(i, TotalFitness(f))) == 0
    {
      PickZeroTotal(f, pick(i, TotalFitness(f)));
    }
    var s := Select(rows, f, pick);
    assert s.Success?;
    assert s.value == seq(|f|, _ => rows[0]);
  }

  /* ---------------------------------------------------------------- */
  /* Crossover                                                        */
  /* ---------------------------------------------------------------- */

  /** The genes `j` with `lo <= j < hi` that a pair exchanges. */
  datatype Window = Window(lo: int, hi: int)

  /** The other individual of the pair (`i`, `i + 1`) for even `i`. */
  function Partner(i: nat): (p: nat)
    ensures p != i && p / 2 == i / 2
  {
    if i % 2 == 0 then i + 1 else i - 1
  }

  /** Every gene vector has at least `len` genes. */
  predicate Covers(rows: Population, len: nat) {
    forall k :: 0 <= k < |rows| ==> len <= |rows[k]|
  }

  /** The first `len` genes of every gene vector. */
  function Cut(rows: Population, len: nat): (c: Population)
    requires Covers(rows, len)
    ensures |c| == |rows| && forall i :: 0 <= i < |c| ==> |c[i]| == len
  {
    seq(|rows|, i requires 0 <= i < |rows| => rows[i][..len])
  }

  /** A child of a pair: the other parent's genes inside the window, its own parent's outside. */
  function Child(own: seq<real>, partner: seq<real>, w: Window, len: nat): (c: seq<real>)
    requires len <= |own| && len <= |partner|
    ensures |c| == len
  {
    seq(len, j requires 0 <= j < len => if w.lo <= j < w.hi then partner[j] else own[j])
  }

  /**
   * Pairs (0, 1), (2, 3), ... exchange the genes inside their window and
   * keep the rest. Without genes there is nothing to read, partner or not.
   */
  function Exchange(rows: Population, window: nat -> Window, len: nat): (c: Population)
    requires Covers(rows, len) && (|rows| % 2 == 0 || len == 0)
    ensures |c| == |rows| && forall i :: 0 <= i < |c| ==> |c[i]| == len
  {
    var c := seq(|rows|, i requires 0 <= i < |rows| =>
      if len == 0 then [] else Child(rows[i], rows[Partner(i)], window(i / 2), len));
    assert forall i :: 0 <= i < |c| ==>
      c[i] == if len == 0 then [] else Child(rows[i], rows[Partner(i)], window(i / 2), len);
    c
  }

  /** Gene `j` of child `i`, read off the parents. */
  lemma ExchangeGene(rows: Population, window: nat -> Window, len: nat, i: nat, j: nat)
    requires Covers(rows, len) && (|rows| % 2 == 0 || len == 0) && i < |rows| && j < len
    ensures Partner(i) < |rows| && j < |rows[i]| && j < |rows[Partner(i)]|
    ensures Exchange(rows, window, len)[i][j]
            == if window(i / 2).lo <= j < window(i / 2).hi then rows[Partner(i)][j] else rows[i][j]
  {
    assert Exchange(rows, window, len)[i] == Child(rows[i], rows[Partner(i)], window(i / 2), len);
  }

  /** At every position a pair's children hold the pair's parents' genes, swapped or not. */
  lemma ExchangeConserves(rows: Population, window: nat -> Window, len: nat, i: nat, j: nat)
    requires Covers(rows, len) && |rows| % 2 == 0 && i < |rows| && j < len
    ensures Partner(i) < |rows|
    ensures var c := Exchange(rows, window, len);
      multiset{c[i][j], c[Partner(i)][j]} == multiset{rows[i][j], rows[Partner(i)][j]}
  {
    ExchangeGene(rows, window, len, i, j);
    ExchangeGene(rows, window, len, Partner(i), j);
    assert Partner(Partner(i)) == i && Partner(i) / 2 == i / 2;
  }

  /** Exchanging again with the same windows gives back the parents. */
  lemma ExchangeTwice(rows: Population, window: nat -> Window, len: nat)
    requires Covers(rows, len) && (|rows| % 2 == 0 || len == 0)
    ensures Exchange(Exchange(rows, window, len), window, len) == Cut(rows, len)
  {
    var c := Exchange(rows, window, len);
    var d := Exchange(c, window, len);
    forall i | 0 <= i < |rows|
      ensures d[i] == rows[i][..len]
    {
      forall j | 0 <= j < len
        ensures d[i][j] == rows[i][j]
      {
        assert Partner(i) / 2 == i / 2 && Partner(Partner(i)) == i;
        ExchangeGene(rows, window, len, i, j);
        ExchangeGene(rows, window, len, Partner(i), j);
        ExchangeGene(c, window, len, i, j);
      }
    }
  }

  /** The bound of the division draw: `Next(0, geneLength)` for one point, `Next(0, geneLength / 2)` for two. */
  function DivisionBound(len: nat, crossover: Crossover): (b: nat)
    ensures b <= len && (crossover == TwoPoint ==> 2 * b <= len)
  {
    if crossover == TwoPoint then len / 2 else len
  }

  /**
   * The window of a pair for its division draw: one-point crossover keeps
   * the genes before the division and exchanges the rest; two-point
   * crossover exchanges the `len / 2` genes from the division on.
   */
  function PairWindow(division: int, len: nat, crossover: Crossover): (w: Window)
    ensures w.lo == division
    ensures NextContract(division, 0, DivisionBound(len, crossover)) ==> 0 <= w.lo <= w.hi <= len
  {
    if crossover == TwoPoint then Window(division, division + len / 2) else Window(division, len)
  }

  /** The windows of all pairs, pair `p` drawing its division with `division(p, bound)`. */
  function Windows(division: (nat, nat) -> int, len: nat, crossover: Crossover): nat -> Window {
    (p: nat) => PairWindow(division(p, DivisionBound(len, crossover)), len, crossover)
  }

  /** A two-point window lies inside the gene vector and exchanges exactly `len / 2` genes. */
  lemma TwoPointWindowInside(division: int, len: nat)
    requires NextContract(division, 0, len / 2)
    ensures var w := PairWindow(division, len, TwoPoint); 0 <= w.lo <= w.hi <= len && w.hi - w.lo == len / 2
  {
  }

  /** A one-point division lies in [0, len): the last gene is always exchanged, and division 0 exchanges them all. */
  lemma OnePointWindowInside(division: int, len: nat)
    requires NextContract(division, 0, len) && len > 0
    ensures var w := PairWindow(division, len, OnePoint); 0 <= w.lo < w.hi == len
  {
  }

  /**
   * Crossover of a population: the gene length is that of the first gene
   * vector, an empty population, a shorter gene vector or an unpaired last
   * individual (when there are genes) is an index out of range.
   */
  function Cross(rows: Population, division: (nat, nat) -> int, crossover: Crossover): (r: Result<Population>)
    ensures r.Failure? ==> r.error == IndexOutOfRange
    ensures r.Success? ==> 0 < |r.value| == |rows| && Rectangular(r.value, |rows[0]|)
  {
    if |rows| == 0 then Failure(IndexOutOfRange)
    else if !Covers(rows, |rows[0]|) || (|rows| % 2 == 1 && |rows[0]| > 0) then Failure(IndexOutOfRange)
    else Success(Exchange(rows, Windows(division, |rows[0]|, crossover), |rows[0]|))
  }

  /** Crossing the children again with the same draws gives back the parents. */
  lemma CrossTwice(rows: Population, division: (nat, nat) -> int, crossover: Crossover)
    requires Cross(rows, division, crossover).Success?
    ensures Cross(Cross(rows, division, crossover).value, division, crossover) == Success(Cut(rows, |rows[0]|))
  {
    var len := |rows[0]|;
    var c := Cross(rows, division, crossover).value;
    assert |c[0]| == len;
    ExchangeTwice(rows, Windows(division, len, crossover), len);
  }

  /**
   * Parents 0000 and 1111 crossed at the middle of the division range:
   * one point (division 2) gives 0011 and 1100, two points (division 1)
   * give 0110 and 1001.
   */
  lemma CrossScenario(division: (nat, nat) -> int)
    requires forall p: nat, b: nat :: division(p, b) == b / 2
    ensures Cross([[0.0, 0.0, 0.0, 0.0], [1.0, 1.0, 1.0, 1.0]], division, OnePoint)
            == Success([[0.0, 0.0, 1.0, 1.0], [1.0, 1.0, 0.0, 0.0]])
    ensures Cross([[0.0, 0.0, 0.0, 0.0], [1.0, 1.0, 1.0, 1.0]], division, TwoPoint)
            == Success([[0.0, 1.0, 1.0, 0.0], [1.0, 0.0, 0.0, 1.0]])
  {
    var rows := [[0.0, 0.0, 0.0, 0.0], [1.0, 1.0, 1.0, 1.0]];
    assert Covers(rows, 4) && Partner(0) == 1 && Partner(1) == 0;
    var w1 := Windows(division, 4, OnePoint);
    assert DivisionBound(4, OnePoint) == 4 && division(0, 4) == 2;
    assert w1(0) == PairWindow(division(0, 4), 4, OnePoint) == Window(2, 4);
    var one := Exchange(rows, w1, 4);
    assert one[0] == [one[0][0], one[0][1], one[0][2], one[0][3]] == [0.0, 0.0, 1.0, 1.0];
    assert one[1] == [one[1][0], one[1][1], one[1][2], one[1][3]] == [1.0, 1.0, 0.0, 0.0];
    assert one == [one[0], one[1]];
    var w2 := Windows(division, 4, TwoPoint);
    assert DivisionBound(4, TwoPoint) == 2 && division(0, 2) == 1;
    assert w2(0) == PairWindow(division(0, 2), 4, TwoPoint) == Window(1, 3);
    var two := Exchange(rows, w2, 4);
    assert two[0] == [two[0][0], two[0][1], two[0][2], two[0][3]] == [0.0, 1.0, 1.0, 0.0];
    assert two[1] == [two[1][0], two[1][1], two[1][2], two[1][3]] == [1.0, 0.0, 0.0, 1.0];
    assert two == [two[0], two[1]];
  }

  /**
   * The children of pair `i` as the gene loop of either crossover writes
   * them, lines 133 and 168 included: outside the window the second child
   * receives `b[j]` at index `i` instead of `j`. `ca` and `cb` are the
   * children's rows so far, all zero when allocated; writing at index `i`
   * past the end of the row is an index out of range.
   */
  function PairAsWritten(a: seq<real>, b: seq<real>, w: Window, i: nat, j: nat, ca: seq<real>, cb: seq<real>)
    : (r: Result<(seq<real>, seq<real>)>)
    requires |ca| == |cb| <= |a| && |cb| <= |b|
    ensures r.Success? ==> |r.value.0| == |r.value.1| == |ca|
    decreases |ca| - j
  {
    if j >= |ca| then Success((ca, cb))
    else if w.lo <= j < w.hi then PairAsWritten(a, b, w, i, j + 1, ca[j := b[j]], cb[j := a[j]])
    else if i >= |cb| then Failure(IndexOutOfRange)
    else PairAsWritten(a, b, w, i, j + 1, ca[j := a[j]], cb[i := b[j]])
  }

  /**
   * As written, parents 0000 and 1111 crossed at division 2 give a second
   * child 1000 instead of 1100; and the second pair of a population with
   * two genes per individual fails as soon as a gene is kept.
   */
  lemma CrossAsWrittenDiverges(division: (nat, nat) -> int)
    requires forall p: nat, b: nat :: division(p, b) == b / 2
    ensures PairAsWritten([0.0, 0.0, 0.0, 0.0], [1.0, 1.0, 1.0, 1.0], Window(2, 4), 0, 0,
                          [0.0, 0.0, 0.0, 0.0], [0.0, 0.0, 0.0, 0.0])
            == Success(([0.0, 0.0, 1.0, 1.0], [1.0, 0.0, 0.0, 0.0]))
    ensures Cross([[0.0, 0.0, 0.0, 0.0], [1.0, 1.0, 1.0, 1.0]], division, OnePoint).value[1] == [1.0, 1.0, 0.0, 0.0]
    ensures PairAsWritten([0.0, 0.0], [1.0, 1.0], Window(1, 2), 2, 0, [0.0, 0.0], [0.0, 0.0]) == Failure(IndexOutOfRange)
  {
    CrossScenario(division);
    var a, b := [0.0, 0.0, 0.0, 0.0], [1.0, 1.0, 1.0, 1.0];
    var z := [0.0, 0.0, 0.0, 0.0];
    var w := Window(2, 4);
    assert z[0 := a[0]] == z && z[0 := b[0]] == [1.0, 0.0, 0.0, 0.0] && z[1 := a[1]] == z;
    assert [1.0, 0.0, 0.0, 0.0][0 := b[1]] == [1.0, 0.0, 0.0, 0.0];
    assert z[2 := b[2]] == [0.0, 0.0, 1.0, 0.0] && [1.0, 0.0, 0.0, 0.0][2 := a[2]] == [1.0, 0.0, 0.0, 0.0];
    assert [0.0, 0.0, 1.0, 0.0][3 := b[3]] == [0.0, 0.0, 1.0, 1.0] && [1.0, 0.0, 0.0, 0.0][3 := a[3]] == [1.0, 0.0, 0.0, 0.0];
    assert PairAsWritten(a, b, w, 0, 0, z, z) == PairAsWritten(a, b, w, 0, 1, z, [1.0, 0.0, 0.0, 0.0]);
    assert PairAsWritten(a, b, w, 0, 1, z, [1.0, 0.0, 0.0, 0.0])
        == PairAsWritten(a, b, w, 0, 2, z, [1.0, 0.0, 0.0, 0.0]);
    assert PairAsWritten(a, b, w, 0, 2, z, [1.0, 0.0, 0.0, 0.0])
        == PairAsWritten(a, b, w, 0, 3, [0.0, 0.0, 1.0, 0.0], [1.0, 0.0, 0.0, 0.0]);
    assert PairAsWritten(a, b, w, 0, 3, [0.0, 0.0, 1.0, 0.0], [1.0, 0.0, 0.0, 0.0])
        == PairAsWritten(a, b, w, 0, 4, [0.0, 0.0, 1.0, 1.0], [1.0, 0.0, 0.0, 0.0]);
  }

  /* ---------------------------------------------------------------- */
  /* Mutation                                                         */
  /* ---------------------------------------------------------------- */

  /** Uniform mutation's wrap: a sum above 1 loses 1, once. */
  function WrapOnce(v: real): (r: real)
    ensures r <= v
    ensures 0.0 <= v <= 2.0 ==> 0.0 <= r <= 1.0
  {
    if v > 1.0 then v - 1.0 else v
  }

  /** A gene in [0, 1] plus a draw in [0, 1) wraps back into [0, 1]; exactly 1 is reached, as the test is strict. */
  lemma WrapOnceRange(g: real, u: real)
    requires 0.0 <= g <= 1.0 && NextDoubleContract(u)
    ensures 0.0 <= WrapOnce(g + u) <= 1.0
  {
  }

  lemma WrapOnceScenario()
    ensures WrapOnce(0.9 + 0.5) == 0.4 && WrapOnce(0.5 + 0.5) == 1.0 && WrapOnce(0.25 + 0.5) == 0.75
  {
  }

  /**
   * Every gene `j < len` of individual `i` that mutation reads exists:
   * uniform mutation reads every gene, random-reset mutation only the genes
   * it keeps.
   */
  predicate RowReads(row: seq<real>, i: nat, len: nat, rate: real, test: (nat, nat) -> real, uniform: bool) {
    forall j :: 0 <= j < len ==> j < |row| || (!uniform && test(i, j) < rate)
  }

  predicate ReadsInRange(rows: Population, len: nat, rate: real, test: (nat, nat) -> real, uniform: bool) {
    forall i :: 0 <= i < |rows| ==> RowReads(rows[i], i, len, rate, test, uniform)
  }

  /**
   * Gene `j` of individual `i` mutates when its test draw is below the
   * rate: it becomes the sample draw (random reset) or the old gene plus
   * the sample draw, wrapped once (uniform); otherwise it is kept.
   */
  function MutatedRow(row: seq<real>, i: nat, len: nat, rate: real, test: (nat, nat) -> real,
                      sample: (nat, nat) -> real, uniform: bool): (m: seq<real>)
    requires RowReads(row, i, len, rate, test, uniform)
    ensures |m| == len
  {
    seq(len, j requires 0 <= j < len =>
      if test(i, j) < rate then
        (if uniform then WrapOnce(row[j] + sample(i, j)) else sample(i, j))
      else row[j])
  }

  /** Every individual mutated, each to `len` genes. */
  function Mutated(rows: Population, len: nat, rate: real, test: (nat, nat) -> real, sample: (nat, nat) -> real,
                   uniform: bool): (m: Population)
    requires ReadsInRange(rows, len, rate, test, uniform)
    ensures |m| == |rows| && forall i :: 0 <= i < |m| ==> |m[i]| == len
  {
    seq(|rows|, i requires 0 <= i < |rows| => MutatedRow(rows[i], i, len, rate, test, sample, uniform))
  }

  /** Mutation of a population, the gene length being that of the first gene vector. */
  function Mutate(rows: Population, rate: real, test: (nat, nat) -> real, sample: (nat, nat) -> real, uniform: bool)
    : (r: Result<Population>)
    ensures r.Failure? ==> r.error == IndexOutOfRange
    ensures r.Success? ==> 0 < |r.value| == |rows| && Rectangular(r.value, |rows[0]|)
  {
    if |rows| == 0 then Failure(IndexOutOfRange)
    else if !ReadsInRange(rows, |rows[0]|, rate, test, uniform) then Failure(IndexOutOfRange)
    else Success(Mutated(rows, |rows[0]|, rate, test, sample, uniform))
  }

  /** A rate of 0 or less mutates nothing: test draws are never negative. */
  lemma MutateZeroRate(rows: Population, rate: real, test: (nat, nat) -> real, sample: (nat, nat) -> real, uniform: bool)
    requires |rows| > 0 && Covers(rows, |rows[0]|) && rate <= 0.0
    requires forall i, j :: NextDoubleContract(test(i, j))
    ensures Mutate(rows, rate, test, sample, uniform) == Success(Cut(rows, |rows[0]|))
  {
    var m := Mutate(rows, rate, test, sample, uniform);
    assert m.Success?;
    forall i | 0 <= i < |rows|
      ensures m.value[i] == rows[i][..|rows[0]|]
    {
      forall j | 0 <= j < |rows[0]|
        ensures m.value[i][j] == rows[i][..|rows[0]|][j]
      {
        assert !(test(i, j) < rate);
      }
    }
    assert m.value == Cut(rows, |rows[0]|);
  }

  /** A rate above every test draw resets every gene to its sample draw, whatever the gene vectors' lengths. */
  lemma MutateFullRate(rows: Population, rate: real, test: (nat, nat) -> real, sample: (nat, nat) -> real)
    requires |rows| > 0 && rate >= 1.0
    requires forall i, j :: NextDoubleContract(test(i, j))
    ensures Mutate(rows, rate, test, sample, false).Success?
    ensures forall i, j :: 0 <= i < |rows| && 0 <= j < |rows[0]| ==>
              Mutate(rows, rate, test, sample, false).value[i][j] == sample(i, j)
  {
  }

  /** A rate above every test draw makes uniform mutation add its sample draw to every gene, wrapped once. */
  lemma MutateFullRateUniform(rows: Population, rate: real, test: (nat, nat) -> real, sample: (nat, nat) -> real)
    requires |rows| > 0 && Covers(rows, |rows[0]|) && rate >= 1.0
    requires forall i, j :: NextDoubleContract(test(i, j))
    ensures Mutate(rows, rate, test, sample, true).Success?
    ensures forall i, j :: 0 <= i < |rows| && 0 <= j < |rows[0]| ==>
              Mutate(rows, rate, test, sample, true).value[i][j] == WrapOnce(rows[i][j] + sample(i, j))
  {
  }

  /** Every gene lies in [0, 1]. */
  predicate InUnit(rows: Population) {
    forall i, j :: 0 <= i < |rows| && 0 <= j < |rows[i]| ==> 0.0 <= rows[i][j] <= 1.0
  }

  /** Both mutations keep genes in [0, 1]. */
  lemma MutateKeepsUnit(rows: Population, rate: real, test: (nat, nat) -> real, sample: (nat, nat) -> real, uniform: bool)
    requires InUnit(rows) && Mutate(rows, rate, test, sample, uniform).Success?
    requires forall i, j :: NextDoubleContract(sample(i, j))
    ensures InUnit(Mutate(rows, rate, test, sample, uniform).value)
  {
    var m := Mutate(rows, rate, test, sample, uniform).value;
    forall i, j | 0 <= i < |m| && 0 <= j < |m[i]|
      ensures 0.0 <= m[i][j] <= 1.0
    {
      if test(i, j) < rate && uniform {
        WrapOnceRange(rows[i][j], sample(i, j));
      }
    }
  }

  /** Crossover's children all have the first parent's gene length, so mutating them never reads past a gene vector. */
  lemma MutateAfterCross(rows: Population, division: (nat, nat) -> int, crossover: Crossover, rate: real,
                         test: (nat, nat) -> real, sample: (nat, nat) -> real, uniform: bool)
    requires Cross(rows, division, crossover).Success?
    ensures Mutate(Cross(rows, division, crossover).value, rate, test, sample, uniform).Success?
  {
    var c := Cross(rows, division, crossover).value;
    assert |c| == |rows| > 0 && |c[0]| == |rows[0]|;
  }

  /* ---------------------------------------------------------------- */
  /* One generation                                                   */
  /* ---------------------------------------------------------------- */

  /**
   * One generation of Compute: reading the first gene vector, selection
   * (roulette, or the population itself), crossover, then mutation
   * (Gaussian mutation does nothing). The children are discarded, so
   * only the outcome remains.
   */
  function Generation(rows: Population, f: seq<int>, selection: Selection, crossover: Crossover, mutation: Mutation,
                      rate: real, pick: (nat, int) -> int, division: (nat, nat) -> int,
                      test: (nat, nat) -> real, sample: (nat, nat) -> real): (o: Outcome)
  {
    if |rows| == 0 then Fail(IndexOutOfRange)
    else
      var parents := if selection == Roulette then Select(rows, f, pick) else Success(rows);
      if parents.Failure? then Fail(parents.error)
      else
        var children := Cross(parents.value, division, crossover);
        if children.Failure? then Fail(children.error)
        else if mutation == Gaussian then Pass
        else
          var mutated := Mutate(children.value, rate, test, sample, mutation == Uniform);
          if mutated.Failure? then Fail(mutated.error) else Pass
  }

  /** Mutation never ends a generation: the outcome is decided by selection and crossover. */
  lemma GenerationOutcome(rows: Population, f: seq<int>, selection: Selection, crossover: Crossover,
                          mutation: Mutation, rate: real, pick: (nat, int) -> int, division: (nat, nat) -> int,
                          test: (nat, nat) -> real, sample: (nat, nat) -> real)
    requires |rows| > 0
    ensures var parents := if selection == Roulette then Select(rows, f, pick) else Success(rows);
      Generation(rows, f, selection, crossover, mutation, rate, pick, division, test, sample)
      == if parents.Failure? then Fail(parents.error)
         else if Cross(parents.value, division, crossover).Failure? then Fail(Cross(parents.value, division, crossover).error)
         else Pass
  {
    var parents := if selection == Roulette then Select(rows, f, pick) else Success(rows);
    if parents.Success? && Cross(parents.value, division, crossover).Success? {
      MutateAfterCross(parents.value, division, crossover, rate, test, sample, mutation == Uniform);
    }
  }

  /** Every gene vector has exactly `len` genes. */
  predicate Rectangular(rows: Population, len: nat) {
    forall k :: 0 <= k < |rows| ==> |rows[k]| == len
  }

  /**
   * A generation over an even, non-empty population of equally long gene
   * vectors, with one non-negative fitness value per individual whose
   * total fits in an `int`, completes.
   */
  lemma GenerationCompletes(rows: Population, f: seq<int>, selection: Selection, crossover: Crossover,
                            mutation: Mutation, rate: real, pick: (nat, int) -> int, division: (nat, nat) -> int,
                            test: (nat, nat) -> real, sample: (nat, nat) -> real)
    requires |rows| > 0 && |rows| % 2 == 0 && Rectangular(rows, |rows[0]|)
    requires |f| == |rows| && NonNegative(f) && Sum(f, |f|) <= Int32Max
    ensures Generation(rows, f, selection, crossover, mutation, rate, pick, division, test, sample) == Pass
  {
    var len := |rows[0]|;
    var parents := if selection == Roulette then Select(rows, f, pick) else Success(rows);
    if selection == Roulette {
      WrappedSumExact(f, |f|);
      SumMono(f, 0, |f|);
      SelectParents(rows, f, pick);
      assert Rectangular(parents.value, len) by {
        forall i | 0 <= i < |f|
          ensures |parents.value[i]| == len
        {
          assert parents.value[i] == rows[Pick(f, pick(i, TotalFitness(f)))];
        }
      }
    }
    var children := Cross(parents.value, division, crossover);
    assert children.Success?;
    assert Rectangular(children.value, len);
  }
}
