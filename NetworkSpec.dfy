/**
 * The value-level view of a 3-layer network: its trainable parameters,
 * the flat gene vector they are stored in, and what a forward pass
 * computes from them. The class in NeuralNetwork.dfy is proved against
 * these definitions.
 */
module NetworkSpec {

  /** The parameters of one hidden or output neuron: its weights, in input order, then its bias. */
  datatype Unit = Unit(weights: seq<real>, bias: real)

  /** The parameters of a whole network: the hidden layer's units, then the output layer's. */
  datatype Params = Params(hidden: seq<Unit>, output: seq<Unit>)

  /** Number of genes of a network with the given layer sizes. */
  function ParamCount(inputs: nat, hidden: nat, outputs: nat): (n: nat)
    ensures n == Span(inputs, hidden) + Span(hidden, outputs)
  {
    SpanProduct(inputs, hidden);
    SpanProduct(hidden, outputs);
    (inputs + 1) * hidden + (hidden + 1) * outputs
  }

  /** `count` units, each with `width` weights. */
  ghost predicate UnitsShaped(units: seq<Unit>, count: nat, width: nat) {
    |units| == count && forall j :: 0 <= j < count ==> |units[j].weights| == width
  }

  /** The parameters fit a network with these layer sizes. */
  ghost predicate Shaped(p: Params, inputs: nat, hidden: nat, outputs: nat) {
    UnitsShaped(p.hidden, hidden, inputs) && UnitsShaped(p.output, outputs, hidden)
  }

  /** A freshly constructed network: every weight and bias is 0. */
  function ZeroParams(inputs: nat, hidden: nat, outputs: nat): (p: Params)
    ensures Shaped(p, inputs, hidden, outputs)
  {
    Params(seq(hidden, _ => Unit(Zeros(inputs), 0.0)), seq(outputs, _ => Unit(Zeros(hidden), 0.0)))
  }

  function Zeros(n: nat): (z: seq<real>)
    ensures |z| == n && forall k :: 0 <= k < n ==> z[k] == 0.0
  {
    seq(n, _ => 0.0)
  }

  // ---------------------------------------------------------------------
  // Gene layout

  /** The genes of a layer: unit after unit, each unit's weights followed by its bias. */
  function FlattenUnits(units: seq<Unit>): seq<real> {
    if units == [] then [] else units[0].weights + [units[0].bias] + FlattenUnits(units[1..])
  }

  /** The gene vector of a network: the hidden layer's genes, then the output layer's. */
  function Encode(p: Params): seq<real> {
    FlattenUnits(p.hidden) + FlattenUnits(p.output)
  }

  /**
   * Number of genes taken by `count` units of `width` weights each, counted
   * unit by unit; SpanProduct shows that it is `count * (width + 1)`.
   */
  function Span(width: nat, count: nat): nat {
    if count == 0 then 0 else Span(width, count - 1) + width + 1
  }

  /** Reads `count` units of `width` weights each from the front of `w`. */
  function DecodeUnits(w: seq<real>, width: nat, count: nat): (units: seq<Unit>)
    requires Span(width, count) <= |w|
    ensures UnitsShaped(units, count, width)
    decreases count
  {
    if count == 0 then []
    else
      SpanFirst(width, count);
      [Unit(w[..width], w[width])] + DecodeUnits(w[width + 1..], width, count - 1)
  }

  /** The network whose genes are the first `ParamCount` values of `w`; later values are not read. */
  function Decode(w: seq<real>, inputs: nat, hidden: nat, outputs: nat): (p: Params)
    requires ParamCount(inputs, hidden, outputs) <= |w|
    ensures Shaped(p, inputs, hidden, outputs)
  {
    SpanProduct(inputs, hidden);
    SpanProduct(hidden, outputs);
    Params(DecodeUnits(w, inputs, hidden), DecodeUnits(w[(inputs + 1) * hidden..], hidden, outputs))
  }

  /**
   * Position in the gene vector of weight `k` of neuron `j` of `layer`
   * (1 = hidden, 2 = output); `k` equal to the layer's input count is the bias.
   */
  function Offset(inputs: nat, hidden: nat, layer: nat, j: nat, k: nat): nat {
    if layer == 1 then j * (inputs + 1) + k
    else (inputs + 1) * hidden + j * (hidden + 1) + k
  }

  /** The gene at the start of a layer, counting from layer 1; layer 3 starts past the last gene. */
  function LayerStart(inputs: nat, hidden: nat, outputs: nat, layer: nat): nat {
    if layer <= 1 then 0
    else if layer == 2 then (inputs + 1) * hidden
    else ParamCount(inputs, hidden, outputs)
  }

  /** The closed-form offsets are where the `ii` counter stands when it walks the layers neuron by neuron. */
  lemma OffsetSpan(inputs: nat, hidden: nat, outputs: nat, layer: nat, j: nat, k: nat)
    ensures layer == 1 ==> Offset(inputs, hidden, layer, j, k) == Span(inputs, j) + k
    ensures layer != 1 ==> Offset(inputs, hidden, layer, j, k) == Span(inputs, hidden) + Span(hidden, j) + k
    ensures LayerStart(inputs, hidden, outputs, 2) == Span(inputs, hidden)
    ensures LayerStart(inputs, hidden, outputs, 3) == Span(inputs, hidden) + Span(hidden, outputs)
  {
    SpanProduct(inputs, j);
    SpanProduct(inputs, hidden);
    SpanProduct(hidden, j);
    SpanProduct(hidden, outputs);
  }

  /** The genes of layer `layer` (1 = hidden, 2 = output) run from its start to the next layer's start, unit by unit. */
  lemma LayerSpan(inputs: nat, hidden: nat, outputs: nat, layer: nat)
    requires layer == 1 || layer == 2
    ensures LayerStart(inputs, hidden, outputs, layer + 1) ==
            LayerStart(inputs, hidden, outputs, layer) +
            (if layer == 1 then Span(inputs, hidden) else Span(hidden, outputs))
    ensures LayerStart(inputs, hidden, outputs, layer + 1) <= ParamCount(inputs, hidden, outputs)
  {
    SpanProduct(inputs, hidden);
    SpanProduct(hidden, outputs);
  }

  /** Counting the first unit first gives the same span. */
  lemma {:induction false} SpanFirst(width: nat, count: nat)
    requires count > 0
    ensures Span(width, count) == width + 1 + Span(width, count - 1)
  {
  }

  /** The unit-by-unit count is the product `count * (width + 1)`. */
  lemma {:induction false} SpanProduct(width: nat, count: nat)
    ensures Span(width, count) == count * (width + 1)
    decreases count
  {
    if count > 0 {
      SpanProduct(width, count - 1);
      MulStep(count, width + 1);
    }
  }

  /** One more row of `m`: `c * m == (c - 1) * m + m`. */
  lemma MulStep(c: nat, m: nat)
    requires c > 0
    ensures c * m == (c - 1) * m + m
  {
  }

  /** Unit `j` and those before it fit in `count` units. */
  lemma {:induction false} SpanMono(width: nat, j: nat, count: nat)
    requires j < count
    ensures Span(width, j) + width + 1 <= Span(width, count)
    decreases count
  {
    if j + 1 < count {
      SpanMono(width, j, count - 1);
    }
  }

  lemma {:induction false} FlattenUnitsLength(units: seq<Unit>, count: nat, width: nat)
    requires UnitsShaped(units, count, width)
    ensures |FlattenUnits(units)| == Span(width, count)
    decreases count
  {
    if count > 0 {
      FlattenUnitsLength(units[1..], count - 1, width);
      SpanFirst(width, count);
    }
  }

  /** Gene `Span(width, j) + k` of a layer is weight `k` of unit `j`, or its bias when `k == width`. */
  lemma {:induction false} FlattenUnitsAt(units: seq<Unit>, count: nat, width: nat, j: nat, k: nat)
    requires UnitsShaped(units, count, width)
    requires j < count && k <= width
    ensures Span(width, j) + k < |FlattenUnits(units)|
    ensures FlattenUnits(units)[Span(width, j) + k] ==
            if k < width then units[j].weights[k] else units[j].bias
    decreases j
  {
    FlattenUnitsLength(units, count, width);
    SpanMono(width, j, count);
    var head := units[0].weights + [units[0].bias];
    assert FlattenUnits(units) == head + FlattenUnits(units[1..]);
    if j > 0 {
      FlattenUnitsAt(units[1..], count - 1, width, j - 1, k);
      SpanFirst(width, j);
    }
  }

  /** The gene vector holds `ParamCount` genes. */
  lemma EncodeLength(p: Params, inputs: nat, hidden: nat, outputs: nat)
    requires Shaped(p, inputs, hidden, outputs)
    ensures |Encode(p)| == ParamCount(inputs, hidden, outputs)
  {
    FlattenUnitsLength(p.hidden, hidden, inputs);
    FlattenUnitsLength(p.output, outputs, hidden);
    SpanProduct(inputs, hidden);
    SpanProduct(hidden, outputs);
  }

  /** The layout is layer-major, then neuron-major, then weights in input order followed by the bias. */
  lemma EncodeAt(p: Params, inputs: nat, hidden: nat, outputs: nat, layer: nat, j: nat, k: nat)
    requires Shaped(p, inputs, hidden, outputs)
    requires layer == 1 || layer == 2
    requires layer == 1 ==> j < hidden && k <= inputs
    requires layer == 2 ==> j < outputs && k <= hidden
    ensures Offset(inputs, hidden, layer, j, k) < ParamCount(inputs, hidden, outputs) == |Encode(p)|
    ensures layer == 1 ==> Encode(p)[Offset(inputs, hidden, layer, j, k)] ==
                           if k < inputs then p.hidden[j].weights[k] else p.hidden[j].bias
    ensures layer == 2 ==> Encode(p)[Offset(inputs, hidden, layer, j, k)] ==
                           if k < hidden then p.output[j].weights[k] else p.output[j].bias
  {
    EncodeLength(p, inputs, hidden, outputs);
    FlattenUnitsLength(p.hidden, hidden, inputs);
    SpanProduct(inputs, hidden);
    if layer == 1 {
      FlattenUnitsAt(p.hidden, hidden, inputs, j, k);
      SpanProduct(inputs, j);
    } else {
      FlattenUnitsAt(p.output, outputs, hidden, j, k);
      SpanProduct(hidden, j);
    }
  }

  /** The genes of `layer` are its flattened units, between the start of that layer and the start of the next. */
  lemma EncodeLayer(p: Params, inputs: nat, hidden: nat, outputs: nat, layer: nat)
    requires Shaped(p, inputs, hidden, outputs)
    requires layer == 1 || layer == 2
    ensures LayerStart(inputs, hidden, outputs, layer + 1) <= |Encode(p)|
    ensures Encode(p)[LayerStart(inputs, hidden, outputs, layer)..LayerStart(inputs, hidden, outputs, layer + 1)] ==
            FlattenUnits(if layer == 1 then p.hidden else p.output)
  {
    EncodeLength(p, inputs, hidden, outputs);
    FlattenUnitsLength(p.hidden, hidden, inputs);
    SpanProduct(inputs, hidden);
    var fh, fo := FlattenUnits(p.hidden), FlattenUnits(p.output);
    assert (fh + fo)[..|fh|] == fh && (fh + fo)[|fh|..] == fo;
  }

  /**
   * A layer written from `ii` on, after genes that already match, extends
   * the matching prefix over that layer's genes.
   */
  lemma LoadedPrefix(units: seq<Unit>, ws: seq<real>, genes: seq<real>, ii: nat, width: nat)
    requires LoadedAt(units, ws, ii, width) && ii <= |ws| == |genes|
    requires ii + Span(width, |units|) <= |genes| && genes[ii..ii + Span(width, |units|)] == FlattenUnits(units)
    requires forall t :: 0 <= t < ii ==> ws[t] == genes[t]
    ensures forall t :: 0 <= t < ii + Span(width, |units|) ==> ws[t] == genes[t]
  {
    LoadedFlatten(units, ws, ii, width);
    PrefixExtend(ws, genes, ii, ii + Span(width, |units|));
  }

  /** A prefix that matches up to `lo` and a slice that matches from `lo` to `hi` make a prefix that matches up to `hi`. */
  lemma PrefixExtend(ws: seq<real>, genes: seq<real>, lo: nat, hi: nat)
    requires lo <= hi <= |ws| && hi <= |genes|
    requires forall t :: 0 <= t < lo ==> ws[t] == genes[t]
    requires ws[lo..hi] == genes[lo..hi]
    ensures forall t :: 0 <= t < hi ==> ws[t] == genes[t]
  {
    forall t | lo <= t < hi
      ensures ws[t] == genes[t]
    {
      assert ws[t] == ws[lo..hi][t - lo];
    }
  }

  /** Unit `j` read by DecodeUnits is the slice of `w` starting at gene `Span(width, j)`. */
  lemma {:induction false} DecodeUnitsAt(w: seq<real>, width: nat, count: nat, j: nat)
    requires Span(width, count) <= |w|
    requires j < count
    ensures Span(width, j) + width < |w|
    ensures DecodeUnits(w, width, count)[j] ==
            var o := Span(width, j); Unit(w[o..o + width], w[o + width])
    decreases j
  {
    SpanMono(width, j, count);
    SpanFirst(width, count);
    var rest := w[width + 1..];
    assert DecodeUnits(w, width, count) == [Unit(w[..width], w[width])] + DecodeUnits(rest, width, count - 1);
    if j > 0 {
      DecodeUnitsAt(rest, width, count - 1, j - 1);
      SpanFirst(width, j);
      var o := Span(width, j - 1);
      assert rest[o..o + width] == w[o + width + 1..o + width + 1 + width];
    }
  }

  /** Decoding reads hidden neuron `j` from the genes starting at `Offset(.., 1, j, 0)`: its weights, then its bias. */
  lemma DecodeHiddenAt(w: seq<real>, inputs: nat, hidden: nat, outputs: nat, j: nat)
    requires ParamCount(inputs, hidden, outputs) <= |w|
    requires j < hidden
    ensures Offset(inputs, hidden, 1, j, 0) + inputs < (inputs + 1) * hidden
    ensures Decode(w, inputs, hidden, outputs).hidden[j] ==
            var o := Offset(inputs, hidden, 1, j, 0); Unit(w[o..o + inputs], w[o + inputs])
  {
    assert Offset(inputs, hidden, 1, j, 0) == Span(inputs, j) by {
      SpanProduct(inputs, j);
    }
    assert (inputs + 1) * hidden == Span(inputs, hidden) by {
      SpanProduct(inputs, hidden);
    }
    SpanMono(inputs, j, hidden);
    DecodeUnitsAt(w, inputs, hidden, j);
  }

  /** Decoding reads output neuron `j` from the genes starting at `Offset(.., 2, j, 0)`: its weights, then its bias. */
  lemma DecodeOutputAt(w: seq<real>, inputs: nat, hidden: nat, outputs: nat, j: nat)
    requires ParamCount(inputs, hidden, outputs) <= |w|
    requires j < outputs
    ensures Offset(inputs, hidden, 2, j, 0) + hidden < ParamCount(inputs, hidden, outputs)
    ensures Decode(w, inputs, hidden, outputs).output[j] ==
            var o := Offset(inputs, hidden, 2, j, 0); Unit(w[o..o + hidden], w[o + hidden])
  {
    var split := (inputs + 1) * hidden;
    var o := Span(hidden, j);
    assert Offset(inputs, hidden, 2, j, 0) == split + o by {
      SpanProduct(hidden, j);
    }
    assert ParamCount(inputs, hidden, outputs) == split + Span(hidden, outputs) by {
      SpanProduct(hidden, outputs);
    }
    SpanMono(hidden, j, outputs);
    var rest := w[split..];
    DecodeUnitsAt(rest, hidden, outputs, j);
    assert rest[o..o + hidden] == w[split + o..split + o + hidden];
  }

  /** Decoding then flattening gives back the genes that were read. */
  lemma {:induction false} FlattenDecodeUnits(w: seq<real>, width: nat, count: nat)
    requires Span(width, count) <= |w|
    ensures FlattenUnits(DecodeUnits(w, width, count)) == w[..Span(width, count)]
    decreases count
  {
    if count > 0 {
      SpanFirst(width, count);
      var rest := w[width + 1..];
      FlattenDecodeUnits(rest, width, count - 1);
      var units := DecodeUnits(w, width, count);
      assert units[1..] == DecodeUnits(rest, width, count - 1);
      assert w[..width] + [w[width]] == w[..width + 1];
      assert w[..Span(width, count)] == w[..width + 1] + rest[..Span(width, count - 1)];
    }
  }

  /** Flattening then decoding gives back the units, whatever follows them. */
  lemma {:induction false} DecodeFlattenUnits(units: seq<Unit>, rest: seq<real>, width: nat, count: nat)
    requires UnitsShaped(units, count, width)
    ensures Span(width, count) <= |FlattenUnits(units) + rest|
    ensures DecodeUnits(FlattenUnits(units) + rest, width, count) == units
    decreases count
  {
    FlattenUnitsLength(units, count, width);
    if count > 0 {
      SpanFirst(width, count);
      var w := FlattenUnits(units) + rest;
      var tail := FlattenUnits(units[1..]) + rest;
      assert w == (units[0].weights + [units[0].bias]) + tail;
      assert |units[0].weights| == width;
      assert w[..width] == units[0].weights;
      assert w[width] == units[0].bias;
      assert w[width + 1..] == tail;
      DecodeFlattenUnits(units[1..], rest, width, count - 1);
      assert DecodeUnits(w, width, count) == [Unit(w[..width], w[width])] + DecodeUnits(tail, width, count - 1);
      assert units == [units[0]] + units[1..];
    }
  }

  /** Unit `u`, the `j`-th of its layer, holds the genes of `w` from `start + Span(width, j)` on: its `width` weights, then its bias. */
  ghost predicate UnitLoaded(u: Unit, w: seq<real>, start: nat, width: nat, j: nat) {
    var o := start + Span(width, j);
    o + width < |w| && u == Unit(w[o..o + width], w[o + width])
  }

  /** Every unit of a layer holds its genes of `w`, the layer being stored from `start` on. */
  ghost predicate LoadedAt(units: seq<Unit>, w: seq<real>, start: nat, width: nat) {
    forall j :: 0 <= j < |units| ==> UnitLoaded(units[j], w, start, width, j)
  }

  /** A loaded layer is what DecodeUnits reads back. */
  lemma DecodeLoaded(units: seq<Unit>, w: seq<real>, width: nat)
    requires LoadedAt(units, w, 0, width) && Span(width, |units|) <= |w|
    ensures DecodeUnits(w, width, |units|) == units
  {
    forall j | 0 <= j < |units|
      ensures DecodeUnits(w, width, |units|)[j] == units[j]
    {
      DecodeUnitsAt(w, width, |units|, j);
    }
  }

  /** A layer loaded from `start` on is loaded from the start of the genes that follow `start`. */
  lemma LoadedShift(units: seq<Unit>, w: seq<real>, start: nat, width: nat)
    requires LoadedAt(units, w, start, width) && start <= |w|
    ensures LoadedAt(units, w[start..], 0, width)
  {
    forall j | 0 <= j < |units|
      ensures UnitLoaded(units[j], w[start..], 0, width, j)
    {
      assert UnitLoaded(units[j], w, start, width, j);
      var o := Span(width, j);
      assert w[start..][o..o + width] == w[start + o..start + o + width];
    }
  }

  /** A layer loaded from `start` on ends inside the gene vector. */
  lemma LoadedLength(units: seq<Unit>, w: seq<real>, start: nat, width: nat)
    requires LoadedAt(units, w, start, width) && start <= |w|
    ensures start + Span(width, |units|) <= |w|
  {
    if |units| > 0 {
      assert UnitLoaded(units[|units| - 1], w, start, width, |units| - 1);
    }
  }

  /** The genes of a layer loaded from `start` on are its flattened units. */
  lemma LoadedFlatten(units: seq<Unit>, w: seq<real>, start: nat, width: nat)
    requires LoadedAt(units, w, start, width) && start <= |w|
    ensures start + Span(width, |units|) <= |w|
    ensures w[start..start + Span(width, |units|)] == FlattenUnits(units)
  {
    LoadedLength(units, w, start, width);
    LoadedShift(units, w, start, width);
    DecodeLoaded(units, w[start..], width);
    FlattenDecodeUnits(w[start..], width, |units|);
    DropTake(w, start, Span(width, |units|));
  }

  /** Dropping `lo` elements, then taking `n`, is the slice from `lo` of length `n`. */
  lemma DropTake(w: seq<real>, lo: nat, n: nat)
    requires lo + n <= |w|
    ensures w[lo..][..n] == w[lo..lo + n]
  {
  }

  /** Parameters whose units were loaded layer by layer from `w` are the ones Decode reads from `w`. */
  lemma DecodeFromLoaded(p: Params, w: seq<real>, inputs: nat, hidden: nat, outputs: nat)
    requires Shaped(p, inputs, hidden, outputs) && ParamCount(inputs, hidden, outputs) <= |w|
    requires LoadedAt(p.hidden, w, 0, inputs) && LoadedAt(p.output, w, (inputs + 1) * hidden, hidden)
    ensures Decode(w, inputs, hidden, outputs) == p
  {
    SpanProduct(inputs, hidden);
    SpanProduct(hidden, outputs);
    DecodeLoaded(p.hidden, w, inputs);
    LoadedShift(p.output, w, (inputs + 1) * hidden, hidden);
    DecodeLoaded(p.output, w[(inputs + 1) * hidden..], hidden);
  }

  /** Round trip from genes: decoding a gene vector of the right length and encoding the result gives it back. */
  lemma EncodeDecode(w: seq<real>, inputs: nat, hidden: nat, outputs: nat)
    requires |w| == ParamCount(inputs, hidden, outputs)
    ensures Encode(Decode(w, inputs, hidden, outputs)) == w
  {
    var split := (inputs + 1) * hidden;
    SpanProduct(inputs, hidden);
    SpanProduct(hidden, outputs);
    FlattenDecodeUnits(w, inputs, hidden);
    FlattenDecodeUnits(w[split..], hidden, outputs);
    assert w == w[..split] + w[split..];
  }

  /** Round trip from parameters: encoding a network and decoding its genes gives back its weights and biases. */
  lemma DecodeEncode(p: Params, inputs: nat, hidden: nat, outputs: nat)
    requires Shaped(p, inputs, hidden, outputs)
    ensures ParamCount(inputs, hidden, outputs) <= |Encode(p)|
    ensures Decode(Encode(p), inputs, hidden, outputs) == p
  {
    EncodeLength(p, inputs, hidden, outputs);
    FlattenUnitsLength(p.hidden, hidden, inputs);
    SpanProduct(inputs, hidden);
    var w := Encode(p);
    DecodeFlattenUnits(p.hidden, FlattenUnits(p.output), inputs, hidden);
    assert w[(inputs + 1) * hidden..] == FlattenUnits(p.output) + [];
    DecodeFlattenUnits(p.output, [], hidden, outputs);
  }

  // ---------------------------------------------------------------------
  // Forward evaluation

  /** `xs[0] * ws[0] + ... + xs[n-1] * ws[n-1]`, accumulated from index 0 upwards. */
  function Dot(xs: seq<real>, ws: seq<real>, n: nat): (d: real)
    requires n <= |xs| && n <= |ws|
    ensures (forall k :: 0 <= k < n ==> ws[k] == 0.0) ==> d == 0.0
  {
    if n == 0 then 0.0 else Dot(xs, ws, n - 1) + xs[n - 1] * ws[n - 1]
  }

  /** Every unit reads no more values than the previous layer has. */
  ghost predicate Fits(prev: seq<real>, units: seq<Unit>) {
    forall j :: 0 <= j < |units| ==> |units[j].weights| <= |prev|
  }

  /** The value of a neuron: the bias plus its weighted inputs; no activation function is applied. */
  function Activation(prev: seq<real>, u: Unit): (v: real)
    requires |u.weights| <= |prev|
    ensures (forall k :: 0 <= k < |u.weights| ==> u.weights[k] == 0.0) ==> v == u.bias
  {
    Dot(prev, u.weights, |u.weights|) + u.bias
  }

  /** The values of a layer computed from the previous layer's values. */
  function LayerOutput(prev: seq<real>, units: seq<Unit>): (out: seq<real>)
    requires Fits(prev, units)
    ensures |out| == |units|
  {
    seq(|units|, j requires 0 <= j < |units| => Activation(prev, units[j]))
  }

  /** The output layer's values for the given input layer values. */
  function Evaluate(p: Params, input: seq<real>): (out: seq<real>)
    requires Shaped(p, |input|, |p.hidden|, |p.output|)
    ensures |out| == |p.output|
  {
    LayerOutput(LayerOutput(input, p.hidden), p.output)
  }

  /** Pointwise `x + y - z`: an affine combination of three vectors. */
  function Combine(x: seq<real>, y: seq<real>, z: seq<real>): (c: seq<real>)
    requires |x| == |y| == |z|
    ensures |c| == |x|
    ensures forall i :: 0 <= i < |x| ==> c[i] == x[i] + y[i] - z[i]
  {
    seq(|x|, i requires 0 <= i < |x| => x[i] + y[i] - z[i])
  }

  lemma {:induction false} DotCombine(x: seq<real>, y: seq<real>, z: seq<real>, ws: seq<real>, n: nat)
    requires |x| == |y| == |z| && n <= |x| && n <= |ws|
    ensures Dot(Combine(x, y, z), ws, n) == Dot(x, ws, n) + Dot(y, ws, n) - Dot(z, ws, n)
  {
    if n > 0 {
      DotCombine(x, y, z, ws, n - 1);
      var c := Combine(x, y, z);
      assert c[n - 1] * ws[n - 1] == x[n - 1] * ws[n - 1] + y[n - 1] * ws[n - 1] - z[n - 1] * ws[n - 1];
    }
  }

  lemma LayerOutputCombine(x: seq<real>, y: seq<real>, z: seq<real>, units: seq<Unit>)
    requires |x| == |y| == |z| && Fits(x, units)
    ensures LayerOutput(Combine(x, y, z), units) ==
            Combine(LayerOutput(x, units), LayerOutput(y, units), LayerOutput(z, units))
  {
    var c := Combine(x, y, z);
    forall j | 0 <= j < |units|
      ensures LayerOutput(c, units)[j] ==
              LayerOutput(x, units)[j] + LayerOutput(y, units)[j] - LayerOutput(z, units)[j]
    {
      DotCombine(x, y, z, units[j].weights, |units[j].weights|);
    }
  }

  /**
   * A forward pass is an affine map of the input values: it preserves the
   * combination `x + y - z`. This is what the absence of an activation
   * function means for the network as a whole.
   */
  lemma EvaluateAffine(p: Params, x: seq<real>, y: seq<real>, z: seq<real>)
    requires |x| == |y| == |z|
    requires Shaped(p, |x|, |p.hidden|, |p.output|)
    ensures Evaluate(p, Combine(x, y, z)) == Combine(Evaluate(p, x), Evaluate(p, y), Evaluate(p, z))
  {
    LayerOutputCombine(x, y, z, p.hidden);
    var hx, hy, hz := LayerOutput(x, p.hidden), LayerOutput(y, p.hidden), LayerOutput(z, p.hidden);
    LayerOutputCombine(hx, hy, hz, p.output);
  }
}
