/**
 * The network object: three layers held in arrays, each neuron a struct
 * value stored in its layer's array and owning an array of weights.
 * Input neurons carry no weights at all (a null array). Its gene codec
 * and forward pass are proved against the value-level definitions of
 * NetworkSpec.
 */
module NeuralNet {
  import opened Runtime
  import opened NetworkSpec

  /** A neuron. Input neurons have `inputNum == 0` and no weight array. */
  datatype Neuron = Neuron(inputNum: int, value: real, weights: array?<real>, bias: real)

  /** A layer: its size and its neurons. */
  datatype NeuronLayer = NeuronLayer(neuronNum: int, neurons: array<Neuron>)

  /** The values of a layer's neurons, in order. */
  function ValuesOf(ns: seq<Neuron>): seq<real> {
    seq(|ns|, j requires 0 <= j < |ns| => ns[j].value)
  }

  /** The neurons of an input layer: no inputs, no weights. */
  ghost predicate InputNeurons(ns: seq<Neuron>) {
    forall j :: 0 <= j < |ns| ==> ns[j].inputNum == 0 && ns[j].weights == null
  }

  /** The neurons of a hidden or output layer: each owns its own array of `inputNum` weights. */
  ghost predicate WeightedNeurons(ns: seq<Neuron>, inputNum: int) {
    && (forall j :: 0 <= j < |ns| ==>
          ns[j].inputNum == inputNum && ns[j].weights != null && ns[j].weights.Length == inputNum)
    && (forall j, j' :: 0 <= j < j' < |ns| ==> ns[j].weights != ns[j'].weights)
  }

  /** The weight arrays the neurons refer to. */
  ghost function WeightArrays(ns: seq<Neuron>): set<array<real>> {
    set j | 0 <= j < |ns| && ns[j].weights != null :: ns[j].weights
  }

  /** The trainable parameters held by weighted neurons. */
  ghost function UnitsOf(ns: seq<Neuron>): seq<Unit>
    requires forall j :: 0 <= j < |ns| ==> ns[j].weights != null
    reads WeightArrays(ns)
  {
    seq(|ns|, j requires 0 <= j < |ns| reads WeightArrays(ns) => Unit(ns[j].weights[..], ns[j].bias))
  }

  /** Same neurons, except possibly for their values. */
  ghost predicate SameButValues(ns: seq<Neuron>, ms: seq<Neuron>) {
    |ns| == |ms| &&
    forall j :: 0 <= j < |ns| ==>
      ns[j].inputNum == ms[j].inputNum && ns[j].weights == ms[j].weights && ns[j].bias == ms[j].bias
  }

  /** Changing only values keeps a layer's shape, its weight arrays and its parameters. */
  lemma SameButValuesKeeps(ns: seq<Neuron>, ms: seq<Neuron>, width: int)
    requires SameButValues(ns, ms) && WeightedNeurons(ns, width)
    ensures WeightedNeurons(ms, width)
    ensures WeightArrays(ns) == WeightArrays(ms)
    ensures UnitsOf(ns) == UnitsOf(ms)
  {
    assert forall a :: a in WeightArrays(ns) ==> a in WeightArrays(ms);
    assert forall a :: a in WeightArrays(ms) ==> a in WeightArrays(ns);
  }

  /** A weighted layer reading `width` values fits any previous layer of that many values. */
  lemma WeightedFits(ns: seq<Neuron>, prev: seq<real>)
    requires WeightedNeurons(ns, |prev|)
    ensures Fits(prev, UnitsOf(ns))
  {
  }

  /** Same neurons, except possibly for their parameters: same inputs, weight arrays and values. */
  ghost predicate SameButParams(ns: seq<Neuron>, ms: seq<Neuron>) {
    |ns| == |ms| &&
    forall j :: 0 <= j < |ns| ==>
      ns[j].inputNum == ms[j].inputNum && ns[j].weights == ms[j].weights && ns[j].value == ms[j].value
  }

  /** Changing only parameters keeps a layer's shape, its weight arrays and its values. */
  lemma SameButParamsKeeps(ns: seq<Neuron>, ms: seq<Neuron>, width: int)
    requires SameButParams(ns, ms)
    ensures InputNeurons(ns) ==> InputNeurons(ms)
    ensures WeightedNeurons(ns, width) ==> WeightedNeurons(ms, width)
    ensures WeightArrays(ns) == WeightArrays(ms)
    ensures ValuesOf(ns) == ValuesOf(ms)
  {
    assert forall a :: a in WeightArrays(ns) ==> a in WeightArrays(ms);
    assert forall a :: a in WeightArrays(ms) ==> a in WeightArrays(ns);
  }

  /**
   * Neuron `n`, the `j`-th of its layer, holds the genes of unit `j` of a
   * layer stored from `start` on: `width` weights, then its bias.
   */
  ghost predicate NeuronLoaded(n: Neuron, w: seq<real>, start: nat, width: nat, j: nat)
    reads n.weights
  {
    var o := start + Span(width, j);
    n.weights != null && o + width < |w| && n.weights[..] == w[o..o + width] && n.bias == w[o + width]
  }

  /** Neurons loaded one by one, unit after unit, make a loaded layer. */
  lemma LoadedUnits(ns: seq<Neuron>, w: seq<real>, start: nat, width: nat)
    requires forall t :: 0 <= t < |ns| ==> NeuronLoaded(ns[t], w, start, width, t)
    ensures forall t :: 0 <= t < |ns| ==> ns[t].weights != null
    ensures LoadedAt(UnitsOf(ns), w, start, width)
  {
  }

  /** A network assembled from three freshly built layers of zeroed neurons is valid and all zero. */
  lemma Assembled(net: NeuralNetwork, l0: NeuronLayer, l1: NeuronLayer, l2: NeuronLayer, inputs: nat, hidden: nat, outputs: nat)
    requires net.neuronLayers.Length == NeuralNetwork.LayerNum
    requires net.neuronLayers[0] == l0 && net.neuronLayers[1] == l1 && net.neuronLayers[2] == l2
    requires net.Repr == {net, net.neuronLayers, l0.neurons, l1.neurons, l2.neurons}
                         + WeightArrays(l1.neurons[..]) + WeightArrays(l2.neurons[..])
    requires l0.neurons != l1.neurons && l0.neurons != l2.neurons && l1.neurons != l2.neurons
    requires l0.neuronNum == l0.neurons.Length == inputs
    requires l1.neuronNum == l1.neurons.Length == hidden
    requires l2.neuronNum == l2.neurons.Length == outputs
    requires InputNeurons(l0.neurons[..]) && ValuesOf(l0.neurons[..]) == Zeros(inputs)
    requires WeightedNeurons(l1.neurons[..], inputs) && WeightedNeurons(l2.neurons[..], hidden)
    requires WeightArrays(l1.neurons[..]) !! WeightArrays(l2.neurons[..])
    requires UnitsOf(l1.neurons[..]) == seq(hidden, _ => Unit(Zeros(inputs), 0.0))
    requires UnitsOf(l2.neurons[..]) == seq(outputs, _ => Unit(Zeros(hidden), 0.0))
    requires ValuesOf(l1.neurons[..]) == Zeros(hidden) && ValuesOf(l2.neurons[..]) == Zeros(outputs)
    ensures net.Valid()
    ensures net.Inputs() == inputs && net.Hidden() == hidden && net.Outputs() == outputs
    ensures net.Parameters() == ZeroParams(inputs, hidden, outputs)
    ensures net.Values(0) == Zeros(inputs) && net.Values(1) == Zeros(hidden) && net.Values(2) == Zeros(outputs)
  {
  }

  class NeuralNetwork {
    /** The network has exactly one hidden layer. */
    static const LayerNum: nat := 3

    var neuronLayers: array<NeuronLayer>
    ghost var Repr: set<object>

    ghost predicate Valid()
      reads this, Repr
    {
      && this in Repr && neuronLayers in Repr && neuronLayers.Length == LayerNum
      && var n0, n1, n2 := neuronLayers[0].neurons, neuronLayers[1].neurons, neuronLayers[2].neurons;
      && n0 in Repr && n1 in Repr && n2 in Repr
      && n0 != n1 && n0 != n2 && n1 != n2
      && neuronLayers[0].neuronNum == n0.Length && neuronLayers[1].neuronNum == n1.Length
      && neuronLayers[2].neuronNum == n2.Length
      && InputNeurons(n0[..])
      && WeightedNeurons(n1[..], n0.Length)
      && WeightedNeurons(n2[..], n1.Length)
      && WeightArrays(n1[..]) <= Repr && WeightArrays(n2[..]) <= Repr
      && WeightArrays(n1[..]) !! WeightArrays(n2[..])
    }

    ghost function Inputs(): nat reads this, Repr requires Valid() { neuronLayers[0].neurons.Length }
    ghost function Hidden(): nat reads this, Repr requires Valid() { neuronLayers[1].neurons.Length }
    ghost function Outputs(): nat reads this, Repr requires Valid() { neuronLayers[2].neurons.Length }

    /** The weights and biases of the hidden and output neurons. */
    ghost function Parameters(): (p: Params)
      reads this, Repr
      requires Valid()
      ensures Shaped(p, Inputs(), Hidden(), Outputs())
    {
      Params(Units(1), Units(2))
    }

    /** The units of layer `i` (1 = hidden, 2 = output). */
    ghost function Units(i: nat): seq<Unit>
      reads this, Repr
      requires Valid() && 0 < i < LayerNum
    {
      UnitsOf(neuronLayers[i].neurons[..])
    }

    /** The parameters in gene order, of the length the layer sizes give. */
    ghost function Genes(): (g: seq<real>)
      reads this, Repr
      requires Valid()
      ensures |g| == ParamCount(Inputs(), Hidden(), Outputs())
    {
      EncodeLength(Parameters(), Inputs(), Hidden(), Outputs());
      Encode(Parameters())
    }

    /** The values of the neurons of layer `i`. */
    ghost function Values(i: nat): seq<real>
      reads this, Repr
      requires Valid() && i < LayerNum
    {
      ValuesOf(neuronLayers[i].neurons[..])
    }

    /** Builds a network of the given layer sizes whose weights, biases and values are all 0. */
    constructor (inputs: nat, hidden: nat, outputs: nat)
      ensures Valid()
      ensures fresh(Repr)
      ensures Inputs() == inputs && Hidden() == hidden && Outputs() == outputs
      ensures Parameters() == ZeroParams(inputs, hidden, outputs)
      ensures Values(0) == Zeros(inputs) && Values(1) == Zeros(hidden) && Values(2) == Zeros(outputs)
    {
      var inputLayer := CreateInputLayer(inputs);
      var hiddenLayer := CreateNeuronLayer(hidden, inputs);
      ghost var hiddenWeights := WeightArrays(hiddenLayer.neurons[..]);
      var outputLayer := CreateNeuronLayer(outputs, hidden);
      ghost var outputWeights := WeightArrays(outputLayer.neurons[..]);
      ghost var weightArrays := hiddenWeights + outputWeights;
      assert fresh(weightArrays);
      var layers := new NeuronLayer[LayerNum][inputLayer, hiddenLayer, outputLayer];
      neuronLayers := layers;
      ghost var layerArrays: set<object> := {layers as object, inputLayer.neurons, hiddenLayer.neurons, outputLayer.neurons};
      assert fresh(layerArrays);
      Repr := {this} + layerArrays + weightArrays;
      new;
      assert fresh(Repr);
      Assembled(this, inputLayer, hiddenLayer, outputLayer, inputs, hidden, outputs);
    }

    /**
     * The forward pass: the values of the hidden layer, then of the output
     * layer, each computed from the previous layer's values. Weights,
     * biases and the input values are left as they were.
     */
    method FeedForward()
      requires Valid()
      modifies neuronLayers[1].neurons, neuronLayers[2].neurons
      ensures Valid()
      ensures Inputs() == old(Inputs()) && Hidden() == old(Hidden()) && Outputs() == old(Outputs())
      ensures Parameters() == old(Parameters()) && Values(0) == old(Values(0))
      ensures Values(1) == LayerOutput(Values(0), Parameters().hidden)
      ensures Values(2) == Evaluate(Parameters(), Values(0))
    {
      for i := 1 to neuronLayers.Length
        invariant Valid()
        invariant Inputs() == old(Inputs()) && Hidden() == old(Hidden()) && Outputs() == old(Outputs())
        invariant Parameters() == old(Parameters()) && Values(0) == old(Values(0))
        invariant i >= 2 ==> Fits(Values(0), Units(1)) && Values(1) == LayerOutput(Values(0), Units(1))
        invariant i >= 3 ==> Fits(Values(1), Units(2)) && Values(2) == LayerOutput(Values(1), Units(2))
      {
        FeedInto(i);
      }
    }

    /** One pass of FeedForward's layer loop: the values of layer `i` from those of layer `i - 1`. */
    method FeedInto(i: nat)
      requires Valid() && 0 < i < LayerNum
      modifies neuronLayers[i].neurons
      ensures Valid()
      ensures Inputs() == old(Inputs()) && Hidden() == old(Hidden()) && Outputs() == old(Outputs())
      ensures Parameters() == old(Parameters())
      ensures forall k :: 0 <= k < LayerNum && k != i ==> Values(k) == old(Values(k))
      ensures Fits(Values(i - 1), Units(i)) && Values(i) == LayerOutput(Values(i - 1), Units(i))
    {
      var layer := neuronLayers[i].neurons;
      ghost var before := layer[..];
      ghost var width := neuronLayers[i - 1].neurons.Length;
      FeedLayer(neuronLayers[i - 1].neurons, layer);
      SameButValuesKeeps(before, layer[..], width);
      assert Valid();
    }

    /** The values of the neurons of `layer`, each computed from the values of `prev`; nothing else changes. */
    static method FeedLayer(prev: array<Neuron>, layer: array<Neuron>)
      requires prev != layer && WeightedNeurons(layer[..], prev.Length)
      modifies layer
      ensures SameButValues(old(layer[..]), layer[..])
      ensures Fits(ValuesOf(prev[..]), UnitsOf(layer[..]))
      ensures ValuesOf(layer[..]) == LayerOutput(ValuesOf(prev[..]), UnitsOf(layer[..]))
    {
      WeightedFits(layer[..], ValuesOf(prev[..]));
      for j := 0 to layer.Length
        invariant SameButValues(old(layer[..]), layer[..])
        invariant forall t :: 0 <= t < j ==> layer[t].value == Activation(ValuesOf(prev[..]), Unit(layer[t].weights[..], layer[t].bias))
      {
        var value := NeuronValue(prev, layer[j]);
        layer[j] := layer[j].(value := value);
      }
      SameButValuesKeeps(old(layer[..]), layer[..], prev.Length);
    }

    /** The weighted sum of the previous layer's values a neuron computes, plus its bias. */
    static method NeuronValue(prev: array<Neuron>, n: Neuron) returns (value: real)
      requires n.weights != null && n.inputNum == n.weights.Length <= prev.Length
      ensures value == Activation(ValuesOf(prev[..]), Unit(n.weights[..], n.bias))
    {
      value := 0.0;
      for k := 0 to n.inputNum
        invariant value == Dot(ValuesOf(prev[..]), n.weights[..], k)
      {
        value := value + prev[k].value * n.weights[k];
      }
      value := value + n.bias;
    }

    /**
     * The flattening loop of ToArray, starting at layer `first`: every
     * neuron's weights, then its bias, through the running cursor `ii`.
     * Starting at the input layer reaches a null weight array as soon as
     * there is an input neuron.
     */
    method ToArrayFrom(first: nat) returns (r: Result<array<real>>)
      requires Valid() && first <= 1
      ensures r.Failure? <==> first == 0 && Inputs() > 0
      ensures r.Failure? ==> r.error == NullReference
      ensures r.Success? ==> fresh(r.value) && r.value.Length == ParamCount(Inputs(), Hidden(), Outputs())
      ensures r.Success? ==> r.value[..] == Encode(Parameters())
    {
      var inputs, hidden, outputs := neuronLayers[0].neuronNum, neuronLayers[1].neuronNum, neuronLayers[2].neuronNum;
      ghost var p, genes := Parameters(), Genes();
      var weights := new real[(inputs + 1) * hidden + (hidden + 1) * outputs];
      var ii := 0;
      for i := first to neuronLayers.Length
        invariant first == 0 && i > 0 ==> inputs == 0
        invariant ii == LayerStart(inputs, hidden, outputs, i)
        invariant forall t :: 0 <= t < ii ==> weights[t] == genes[t]
      {
        var step := CopyLayer(i, weights, ii, p, genes, inputs, hidden, outputs);
        if step.Failure? {
          return Failure(step.error);
        }
        ii := step.value;
      }
      assert weights[..] == genes;
      return Success(weights);
    }

    /** One pass of ToArray's layer loop: the neurons of layer `i`, written from `ii` onwards. */
    method CopyLayer(i: nat, weights: array<real>, ii: nat, ghost p: Params, ghost genes: seq<real>,
                     ghost inputs: nat, ghost hidden: nat, ghost outputs: nat)
      returns (r: Result<nat>)
      requires Valid() && i < LayerNum && weights !in Repr
      requires p == Parameters() && genes == Genes()
      requires inputs == Inputs() && hidden == Hidden() && outputs == Outputs()
      requires weights.Length == |genes| && ii == LayerStart(inputs, hidden, outputs, i)
      requires forall t :: 0 <= t < ii ==> weights[t] == genes[t]
      modifies weights
      ensures r.Failure? <==> i == 0 && inputs > 0
      ensures r.Failure? ==> r.error == NullReference
      ensures r.Success? ==> r.value == LayerStart(inputs, hidden, outputs, i + 1)
      ensures r.Success? ==> forall t :: 0 <= t < r.value ==> weights[t] == genes[t]
    {
      var neurons := neuronLayers[i].neurons;
      if i == 0 {
        assert InputNeurons(neurons[..]) && WeightArrays(neurons[..]) == {} && neurons.Length == inputs;
        r := StoreLayerGenes(neurons, 0, weights, ii, [], genes);
      } else {
        ghost var width := neuronLayers[i - 1].neurons.Length;
        assert WeightedNeurons(neurons[..], width) && WeightArrays(neurons[..]) <= Repr;
        assert neurons.Length > 0 ==> neurons[..][0].weights != null;
        LayerSpan(inputs, hidden, outputs, i);
        EncodeLayer(p, inputs, hidden, outputs, i);
        r := StoreLayerGenes(neurons, width, weights, ii, Units(i), genes);
      }
    }

    /**
     * ToArray's loop over the neurons of one layer, writing from `ii`
     * onwards after genes that already match `genes`: on success the
     * matching prefix extends over the layer's genes.
     */
    static method StoreLayerGenes(neurons: array<Neuron>, ghost width: nat, weights: array<real>, ii: nat,
                                  ghost units: seq<Unit>, ghost genes: seq<real>)
      returns (r: Result<nat>)
      requires InputNeurons(neurons[..]) ||
               (&& WeightedNeurons(neurons[..], width) && UnitsOf(neurons[..]) == units
                && ii + Span(width, neurons.Length) <= |genes|
                && genes[ii..ii + Span(width, neurons.Length)] == FlattenUnits(units))
      requires weights !in WeightArrays(neurons[..]) && weights.Length == |genes| && ii <= |genes|
      requires forall t :: 0 <= t < ii ==> weights[t] == genes[t]
      modifies weights
      ensures r.Failure? <==> neurons.Length > 0 && neurons[0].weights == null
      ensures r.Failure? ==> r.error == NullReference
      ensures r.Success? ==> r.value == ii + Span(width, neurons.Length)
      ensures r.Success? ==> forall t :: 0 <= t < r.value ==> weights[t] == genes[t]
    {
      r := StoreLayer(neurons, width, weights, ii, units);
      if r.Success? && neurons.Length > 0 {
        LoadedPrefix(units, weights[..], genes, ii, width);
      }
    }

    /**
     * ToArray's loop over the neurons of one layer, writing from `ii`
     * onwards. An input neuron has no weight array, so a non-empty input
     * layer fails at once.
     */
    static method StoreLayer(neurons: array<Neuron>, ghost width: nat, weights: array<real>, ii: nat, ghost units: seq<Unit>)
      returns (r: Result<nat>)
      requires InputNeurons(neurons[..]) ||
               (WeightedNeurons(neurons[..], width) && UnitsOf(neurons[..]) == units
                && ii + Span(width, neurons.Length) <= weights.Length)
      requires weights !in WeightArrays(neurons[..])
      modifies weights
      ensures forall t :: 0 <= t < ii && t < weights.Length ==> weights[t] == old(weights[t])
      ensures r.Failure? <==> neurons.Length > 0 && neurons[0].weights == null
      ensures r.Failure? ==> r.error == NullReference
      ensures r.Success? ==> r.value == ii + Span(width, neurons.Length)
      ensures r.Success? && neurons.Length > 0 ==> LoadedAt(units, weights[..], ii, width)
    {
      var next := ii;
      for j := 0 to neurons.Length
        invariant next == ii + Span(width, j)
        invariant forall t :: 0 <= t < ii && t < weights.Length ==> weights[t] == old(weights[t])
        invariant forall t :: 0 <= t < j ==> NeuronLoaded(neurons[t], weights[..], ii, width, t)
      {
        var w := neurons[j].weights;
        if w == null {
          // `weights.Length` of an input neuron
          return Failure(NullReference);
        }
        assert w in WeightArrays(neurons[..]);
        SpanMono(width, j, neurons.Length);
        next := StoreNeuron(neurons, j, weights, ii, next, width);
      }
      if neurons.Length > 0 {
        assert NeuronLoaded(neurons[0], weights[..], ii, width, 0);
        LoadedUnits(neurons[..], weights[..], ii, width);
      }
      return Success(next);
    }

    /**
     * One neuron of ToArray's loop: its weights, then its bias, written from
     * the cursor `next` onwards, after neurons `0..j` were written from `ii`
     * onwards.
     */
    static method StoreNeuron(neurons: array<Neuron>, j: nat, weights: array<real>, ghost ii: nat, next: nat, ghost width: nat)
      returns (after: nat)
      requires j < neurons.Length && neurons[j].weights != null && neurons[j].weights.Length == width
      requires forall t :: 0 <= t <= j ==> neurons[t].weights != weights
      requires next == ii + Span(width, j) && next + width < weights.Length
      requires forall t :: 0 <= t < j ==> NeuronLoaded(neurons[t], weights[..], ii, width, t)
      modifies weights
      ensures after == ii + Span(width, j + 1)
      ensures forall t :: 0 <= t < next ==> weights[t] == old(weights[t])
      ensures forall t :: 0 <= t <= j ==> NeuronLoaded(neurons[t], weights[..], ii, width, t)
    {
      var w := neurons[j].weights;
      after := CopyNeuron(w, neurons[j].bias, weights, next);
      forall t | 0 <= t < j
        ensures NeuronLoaded(neurons[t], weights[..], ii, width, t)
      {
        var o := ii + Span(width, t);
        SpanMono(width, t, j);
        assert weights[..][o..o + width] == old(weights[..])[o..o + width];
      }
      assert w[..] == weights[..][next..next + width];
    }

    /** The inner part of ToArray's loop: one neuron's weights, then its bias, written from `ii` onwards. */
    static method CopyNeuron(w: array<real>, bias: real, weights: array<real>, ii: nat) returns (next: nat)
      requires ii + w.Length < weights.Length && w != weights
      modifies weights
      ensures next == ii + w.Length + 1
      ensures forall t :: 0 <= t < ii ==> weights[t] == old(weights[t])
      ensures forall t :: ii <= t < next - 1 ==> weights[t] == w[t - ii]
      ensures weights[next - 1] == bias
    {
      next := ii;
      for k := 0 to w.Length
        invariant next == ii + k
        invariant forall t :: 0 <= t < ii ==> weights[t] == old(weights[t])
        invariant forall t :: ii <= t < next ==> weights[t] == w[t - ii]
      {
        weights[next] := w[k];
        next := next + 1;
      }
      weights[next] := bias;
      next := next + 1;
    }

    /** ToArray with the layer loop starting at the hidden layer, as the weightless input layer requires. */
    method ToArray() returns (weights: array<real>)
      requires Valid()
      ensures fresh(weights)
      ensures weights.Length == ParamCount(Inputs(), Hidden(), Outputs())
      ensures weights[..] == Encode(Parameters())
    {
      var r := ToArrayFrom(1);
      weights := r.value;
    }

    /** ToArray as written, with the layer loop starting at the input layer. */
    method ToArrayAsWritten() returns (r: Result<array<real>>)
      requires Valid()
      ensures r.Failure? <==> Inputs() > 0
      ensures r.Failure? ==> r.error == NullReference
      ensures r.Success? ==> fresh(r.value) && r.value[..] == Encode(Parameters())
    {
      r := ToArrayFrom(0);
    }

    /**
     * The loading loop of ConvertArray over a fresh network of the given
     * sizes, starting at layer `first`. Starting at the input layer reaches
     * a null weight array as soon as there is an input neuron; otherwise
     * the only failure is a gene vector shorter than the network.
     */
    static method ConvertArrayFrom(weights: array<real>, inputs: nat, hidden: nat, outputs: nat, first: nat)
      returns (r: Result<NeuralNetwork>)
      requires first <= 1
      ensures r.Failure? <==> (first == 0 && inputs > 0) || weights.Length < ParamCount(inputs, hidden, outputs)
      ensures r.Failure? ==> r.error == if first == 0 && inputs > 0 then NullReference else IndexOutOfRange
      ensures r.Success? ==> r.value.Valid() && fresh(r.value.Repr)
      ensures r.Success? ==> r.value.Inputs() == inputs && r.value.Hidden() == hidden && r.value.Outputs() == outputs
      ensures r.Success? ==> r.value.Parameters() == Decode(weights[..], inputs, hidden, outputs)
      ensures r.Success? ==>
                r.value.Values(0) == Zeros(inputs) && r.value.Values(1) == Zeros(hidden) && r.value.Values(2) == Zeros(outputs)
    {
      var network := new NeuralNetwork(inputs, hidden, outputs);
      var ii := 0;
      for i := first to network.neuronLayers.Length
        invariant fresh(network.Repr) && weights !in network.Repr
        invariant network.LoadedUpTo(weights[..], inputs, hidden, outputs, i)
        invariant first == 0 && i > 0 ==> inputs == 0
        invariant ii == LayerStart(inputs, hidden, outputs, i) <= weights.Length
      {
        var step := network.LoadStep(i, weights, ii, inputs, hidden, outputs);
        if step.Failure? {
          return Failure(step.error);
        }
        ii := step.value;
      }
      assert network.LoadedUpTo(weights[..], inputs, hidden, outputs, 3);
      DecodeFromLoaded(network.Parameters(), weights[..], inputs, hidden, outputs);
      return Success(network);
    }

    /** ConvertArray with the layer loop starting at the hidden layer: a gene vector shorter than the network is the only failure. */
    static method ConvertArray(weights: array<real>, inputs: nat, hidden: nat, outputs: nat)
      returns (r: Result<NeuralNetwork>)
      ensures r.Failure? <==> weights.Length < ParamCount(inputs, hidden, outputs)
      ensures r.Failure? ==> r.error == IndexOutOfRange
      ensures r.Success? ==> r.value.Valid() && fresh(r.value.Repr)
      ensures r.Success? ==> r.value.Inputs() == inputs && r.value.Hidden() == hidden && r.value.Outputs() == outputs
      ensures r.Success? ==> r.value.Parameters() == Decode(weights[..], inputs, hidden, outputs)
      ensures r.Success? ==>
                r.value.Values(0) == Zeros(inputs) && r.value.Values(1) == Zeros(hidden) && r.value.Values(2) == Zeros(outputs)
    {
      r := ConvertArrayFrom(weights, inputs, hidden, outputs, 1);
    }

    /** ConvertArray as written, with the layer loop starting at the input layer. */
    static method ConvertArrayAsWritten(weights: array<real>, inputs: nat, hidden: nat, outputs: nat)
      returns (r: Result<NeuralNetwork>)
      ensures r.Failure? <==> inputs > 0 || weights.Length < ParamCount(inputs, hidden, outputs)
      ensures r.Failure? ==> r.error == if inputs > 0 then NullReference else IndexOutOfRange
      ensures r.Success? ==> r.value.Valid() && fresh(r.value.Repr)
      ensures r.Success? ==> r.value.Inputs() == inputs && r.value.Hidden() == hidden && r.value.Outputs() == outputs
      ensures r.Success? ==> r.value.Parameters() == Decode(weights[..], inputs, hidden, outputs)
      ensures r.Success? ==>
                r.value.Values(0) == Zeros(inputs) && r.value.Values(1) == Zeros(hidden) && r.value.Values(2) == Zeros(outputs)
    {
      r := ConvertArrayFrom(weights, inputs, hidden, outputs, 0);
    }

    /**
     * A fresh network of the given sizes, all values still 0, whose layers
     * before `i` hold the genes of `weights` that Decode assigns them.
     */
    ghost predicate LoadedUpTo(weights: seq<real>, inputs: nat, hidden: nat, outputs: nat, i: nat)
      reads this, Repr
    {
      && Valid()
      && Inputs() == inputs && Hidden() == hidden && Outputs() == outputs
      && Values(0) == Zeros(inputs) && Values(1) == Zeros(hidden) && Values(2) == Zeros(outputs)
      && (i >= 2 ==> LoadedAt(Units(1), weights, 0, inputs))
      && (i >= 3 ==> LoadedAt(Units(2), weights, (inputs + 1) * hidden, hidden))
    }

    /** One pass of ConvertArray's layer loop, in terms of what the passes so far have loaded. */
    method LoadStep(i: nat, weights: array<real>, ii: nat, ghost inputs: nat, ghost hidden: nat, ghost outputs: nat)
      returns (r: Result<nat>)
      requires LoadedUpTo(weights[..], inputs, hidden, outputs, i) && i < LayerNum && weights !in Repr
      requires ii == LayerStart(inputs, hidden, outputs, i) <= weights.Length
      modifies neuronLayers[i].neurons, WeightArrays(neuronLayers[i].neurons[..])
      ensures r.Failure? <==> (i == 0 && inputs > 0) || weights.Length < LayerStart(inputs, hidden, outputs, i + 1)
      ensures r.Failure? ==> r.error == if i == 0 then NullReference else IndexOutOfRange
      ensures r.Success? ==> r.value == LayerStart(inputs, hidden, outputs, i + 1)
      ensures r.Success? ==> LoadedUpTo(weights[..], inputs, hidden, outputs, i + 1)
    {
      r := LoadInto(i, weights, ii);
    }

    /**
     * One pass of ConvertArray's layer loop over layer `i` of this network,
     * reading genes from the start of that layer's genes onwards: only the
     * parameters of layer `i` change.
     */
    method LoadInto(i: nat, weights: array<real>, ii: nat) returns (r: Result<nat>)
      requires Valid() && i < LayerNum && weights !in Repr
      requires ii == LayerStart(Inputs(), Hidden(), Outputs(), i) <= weights.Length
      modifies neuronLayers[i].neurons, WeightArrays(neuronLayers[i].neurons[..])
      ensures Valid()
      ensures Inputs() == old(Inputs()) && Hidden() == old(Hidden()) && Outputs() == old(Outputs())
      ensures Values(0) == old(Values(0)) && Values(1) == old(Values(1)) && Values(2) == old(Values(2))
      ensures i == 2 ==> Units(1) == old(Units(1))
      ensures r.Failure? <==>
                (i == 0 && Inputs() > 0) || weights.Length < LayerStart(Inputs(), Hidden(), Outputs(), i + 1)
      ensures r.Failure? ==> r.error == if i == 0 then NullReference else IndexOutOfRange
      ensures r.Success? ==> r.value == LayerStart(Inputs(), Hidden(), Outputs(), i + 1)
      ensures r.Success? && i > 0 ==> LoadedAt(Units(i), weights[..], ii, neuronLayers[i - 1].neurons.Length)
    {
      var neurons := neuronLayers[i].neurons;
      ghost var width := if i == 0 then 0 else neuronLayers[i - 1].neurons.Length;
      ghost var before := neurons[..];
      r := LoadLayer(neurons, width, weights, ii);
      SameButParamsKeeps(before, neurons[..], width);
      assert Valid();
      if i > 0 {
        LayerSpan(Inputs(), Hidden(), Outputs(), i);
      }
    }

    /**
     * One pass of ConvertArray's layer loop over the neurons of one layer,
     * reading genes from `ii` onwards. An input neuron has no weight array,
     * so a non-empty input layer fails at once.
     */
    static method LoadLayer(neurons: array<Neuron>, ghost width: nat, weights: array<real>, ii: nat) returns (r: Result<nat>)
      requires InputNeurons(neurons[..]) || WeightedNeurons(neurons[..], width)
      requires weights !in WeightArrays(neurons[..]) && ii <= weights.Length
      modifies neurons, WeightArrays(neurons[..])
      ensures SameButParams(old(neurons[..]), neurons[..])
      ensures r.Failure? <==>
                (neurons.Length > 0 && neurons[0].weights == null) || weights.Length < ii + Span(width, neurons.Length)
      ensures r.Failure? ==> r.error == if neurons[0].weights == null then NullReference else IndexOutOfRange
      ensures r.Success? ==> r.value == ii + Span(width, neurons.Length)
      ensures r.Success? ==> (forall j :: 0 <= j < neurons.Length ==> neurons[j].weights != null)
      ensures r.Success? ==> LoadedAt(UnitsOf(neurons[..]), weights[..], ii, width)
    {
      var next := ii;
      for j := 0 to neurons.Length
        invariant SameButParams(old(neurons[..]), neurons[..])
        invariant next == ii + Span(width, j) <= weights.Length
        invariant forall t :: 0 <= t < j ==> NeuronLoaded(neurons[t], weights[..], ii, width, t)
      {
        if neurons[j].weights == null {
          assert old(neurons[..])[j].weights == null && old(neurons[..])[0].weights == neurons[0].weights;
          assert !WeightedNeurons(old(neurons[..]), width);
          // `weights.Length` of an input neuron
          return Failure(NullReference);
        }
        assert WeightedNeurons(old(neurons[..]), width);
        var step := LoadNeuron(neurons, j, weights, ii, next, width);
        if step.Failure? {
          SpanMono(width, j, neurons.Length);
          return step;
        }
        next := step.value;
      }
      LoadedUnits(neurons[..], weights[..], ii, width);
      return Success(next);
    }

    /**
     * One neuron of ConvertArray's loop: its weights, then its bias, read
     * from the cursor `next` onwards, after neurons `0..j` were loaded from
     * `ii` onwards.
     */
    static method LoadNeuron(neurons: array<Neuron>, j: nat, weights: array<real>, ghost ii: nat, next: nat, ghost width: nat)
      returns (r: Result<nat>)
      requires j < neurons.Length && neurons[j].weights != null && neurons[j].weights.Length == width
      requires neurons[j].weights != weights && forall t :: 0 <= t < j ==> neurons[t].weights != neurons[j].weights
      requires next == ii + Span(width, j) <= weights.Length
      requires forall t :: 0 <= t < j ==> NeuronLoaded(neurons[t], weights[..], ii, width, t)
      modifies neurons, neurons[j].weights
      ensures SameButParams(old(neurons[..]), neurons[..])
      ensures r.Failure? <==> weights.Length < ii + Span(width, j + 1)
      ensures r.Failure? ==> r.error == IndexOutOfRange
      ensures r.Success? ==> r.value == ii + Span(width, j + 1) <= weights.Length
      ensures r.Success? ==> forall t :: 0 <= t <= j ==> NeuronLoaded(neurons[t], weights[..], ii, width, t)
    {
      var w := neurons[j].weights;
      var filled := FillNeuron(w, weights, next);
      if filled.Failure? {
        return filled;
      }
      var k := filled.value;
      if k >= weights.Length {
        // the bias read `weights[ii]`
        return Failure(IndexOutOfRange);
      }
      neurons[j] := neurons[j].(bias := weights[k]);
      forall t | 0 <= t < j
        ensures NeuronLoaded(neurons[t], weights[..], ii, width, t)
      {
        assert neurons[t] == old(neurons[t]) && neurons[t].weights != w;
      }
      r := Success(k + 1);
    }

    /** The inner loop of ConvertArray: the weights of one neuron, read from `ii` onwards. */
    static method FillNeuron(w: array<real>, weights: array<real>, ii: nat) returns (r: Result<nat>)
      requires ii <= weights.Length && w != weights
      modifies w
      ensures r.Failure? <==> weights.Length < ii + w.Length
      ensures r.Failure? ==> r.error == IndexOutOfRange
      ensures r.Success? ==> r.value == ii + w.Length && w[..] == weights[ii..r.value]
    {
      var next := ii;
      for k := 0 to w.Length
        invariant next == ii + k <= weights.Length
        invariant w[..k] == weights[ii..next]
      {
        if next >= weights.Length {
          return Failure(IndexOutOfRange);
        }
        w[k] := weights[next];
        next := next + 1;
      }
      return Success(next);
    }

    /** An input layer of `neuronNum` neurons. */
    static method CreateInputLayer(neuronNum: nat) returns (layer: NeuronLayer)
      ensures fresh(layer.neurons)
      ensures layer.neuronNum == layer.neurons.Length == neuronNum
      ensures InputNeurons(layer.neurons[..]) && ValuesOf(layer.neurons[..]) == Zeros(neuronNum)
    {
      var neurons := new Neuron[neuronNum];
      for i := 0 to neuronNum
        invariant forall r :: 0 <= r < i ==>
          neurons[r].inputNum == 0 && neurons[r].weights == null && neurons[r].value == 0.0
      {
        neurons[i] := CreateInputNeuron();
      }
      layer := NeuronLayer(neuronNum, neurons);
    }

    /** A hidden or output layer of `neuronNum` neurons, each reading `inputNum` values. */
    static method CreateNeuronLayer(neuronNum: nat, inputNum: nat) returns (layer: NeuronLayer)
      ensures fresh(layer.neurons)
      ensures layer.neuronNum == layer.neurons.Length == neuronNum
      ensures WeightedNeurons(layer.neurons[..], inputNum)
      ensures fresh(WeightArrays(layer.neurons[..]))
      ensures UnitsOf(layer.neurons[..]) == seq(neuronNum, _ => Unit(Zeros(inputNum), 0.0))
      ensures ValuesOf(layer.neurons[..]) == Zeros(neuronNum)
    {
      var neurons := new Neuron[neuronNum];
      for i := 0 to neuronNum
        invariant forall r :: 0 <= r < i ==>
          && neurons[r].inputNum == inputNum && neurons[r].value == 0.0 && neurons[r].bias == 0.0
          && neurons[r].weights != null && fresh(neurons[r].weights)
          && neurons[r].weights[..] == Zeros(inputNum)
        invariant forall r, r' :: 0 <= r < r' < i ==> neurons[r].weights != neurons[r'].weights
      {
        neurons[i] := CreateNeuron(inputNum);
      }
      layer := NeuronLayer(neuronNum, neurons);
    }

    /** An input neuron: no inputs and no weight array. */
    static method CreateInputNeuron() returns (neuron: Neuron)
      ensures neuron.inputNum == 0 && neuron.weights == null && neuron.value == 0.0
    {
      neuron := Neuron(0, 0.0, null, 0.0);
    }

    /** A neuron reading `inputNum` values, with a fresh zeroed weight array and bias 0. */
    static method CreateNeuron(inputNum: nat) returns (neuron: Neuron)
      ensures neuron.inputNum == inputNum && neuron.value == 0.0 && neuron.bias == 0.0
      ensures neuron.weights != null && fresh(neuron.weights) && neuron.weights[..] == Zeros(inputNum)
    {
      var weights := new real[inputNum](_ => 0.0);
      neuron := Neuron(inputNum, 0.0, weights, 0.0);
    }
  }
}
