# Neuroevolution in Dafny

A model of the two classes at the heart of Neuroevolution, a small C# library
that evolves the weights of fixed-shape neural networks with a genetic
algorithm.

- `NeuralNetwork` holds three neuron layers: input, hidden and output.
  - Its constructor builds them with zero weights, biases and values.
  - `FeedForward` propagates the input values through the hidden layer to the
    output layer.
  - `ToArray` flattens every weight and bias into one gene vector:
    `(inputs + 1) * hidden + (hidden + 1) * outputs` genes, neuron by neuron,
    each neuron's weights followed by its bias.
  - `ConvertArray` builds a fresh network from such a vector.
- `GeneticAlgorithm` holds the operators that breed gene vectors:
  - roulette selection (`RouletteSelect`);
  - one- and two-point crossover over pairs (0, 1), (2, 3), …;
  - random-reset and uniform mutation;
  - `Compute`, which runs one selection → crossover → mutation generation.

The model has five modules.

| module | file | contents |
|---|---|---|
| `Runtime` | `Runtime.dfy` | The .NET behaviour both classes rely on: the exceptions raised, 32-bit `int` wrap-around, and the value ranges of `Random.Next(lo, hi)` and `Random.NextDouble()`. |
| `NetworkSpec` | `NetworkSpec.dfy` | Networks as values (`Params`: one `Unit` of weights and bias per neuron). `Encode` and `Decode` give the gene layout; `LayerOutput` and `Evaluate` give forward evaluation. Proves both round trips and the affinity of evaluation in its input. |
| `NeuralNet` | `NeuralNetwork.dfy` | The `NeuralNetwork` class: its layers are `NeuronLayer` values holding arrays of `Neuron` values, and each neuron's weights are an array of its own. Every method is imperative, with the loops of the source, and is proved against `NetworkSpec`. |
| `GeneticSpec` | `GeneticSpec.dfy` | The operators on populations as values (`seq<seq<real>>`): `Select`, `Cross`, `Mutate` and `Generation`, with their properties. |
| `GeneticAlgorithm` | `GeneticAlgorithm.dfy` | The static methods over jagged `double[][]` arrays, loop for loop, each proved against its `GeneticSpec` counterpart. |

## Modelling choices

- **Randomness.** Every method of the source makes its own `System.Random`.
  The model turns each draw into a function parameter that takes the draw's
  position and its bound:
  - `pick(i, total)`: the roulette draw for slot `i`;
  - `division(p, bound)`: the division of pair `p`;
  - `test(i, j)` and `sample(i, j)`: the two `NextDouble` draws for gene `j`
    of individual `i`.

  Properties that rely on the range of the draws assume it with
  `NextContract` or `NextDoubleContract`.
- **Exceptions.** For non-null arguments whose sizes fit in an `int`, every
  exception the source can raise is modelled as a `Failure` result:
  `IndexOutOfRange`, `NullReference` or `ArgumentOutOfRange`. Each contract
  says exactly when it occurs.
- **Integers.** Fitness values are C# `int`s (`Int32`). The accumulated total
  wraps around modulo 2^32, as unchecked C# arithmetic does (`Wrap32`).
- **Doubles.** Weights, values and genes are `real`.

## Model

| member | source | states |
|---|---|---|
| Runtime.Wrap32 | Neuroevolution/Neuroevolution/GeneticAlgorithm.cs:77-80 | The fitness total accumulated in an `int` is the true sum reduced modulo 2^32 into the `int` range, and equals the true sum when that fits. |
| Runtime.NextThrowsOnlyBelow | Neuroevolution/Neuroevolution/GeneticAlgorithm.cs:86 | `Random.Next(lo, hi)` can return a value exactly when `lo <= hi`. With `hi < lo` no value is possible, which is the `ArgumentOutOfRange` path. |
| NetworkSpec.ZeroParams | Neuroevolution/Neuroevolution/NeuralNetwork.cs:17-23 | A fresh network's parameters have the constructor's shape: `hidden` units of `inputs` weights, and `outputs` units of `hidden` weights. |
| NetworkSpec.Zeros | Neuroevolution/Neuroevolution/NeuralNetwork.cs:84-95 | The zero-initialised values and weight arrays the neuron creators set up (`value = 0` at line 84, `new double[inputNum]` at line 95) have `n` elements, each `0`. |
| NetworkSpec.ParamCount | Neuroevolution/Neuroevolution/NeuralNetwork.cs:107 | The allocated size `(inputs + 1) * hidden + (hidden + 1) * outputs` is the number of genes the hidden and output layers take when counted neuron by neuron, weights then bias. |
| NetworkSpec.FlattenUnits | Neuroevolution/Neuroevolution/NeuralNetwork.cs:112-121 | The per-layer neuron loop of `ToArray`: each neuron's weights, then its bias, neuron after neuron. Its meaning is stated by `FlattenUnitsLength`, `DecodeFlattenUnits` and `FlattenDecodeUnits`. |
| NetworkSpec.Encode | Neuroevolution/Neuroevolution/NeuralNetwork.cs:101-125 | The gene vector: the hidden layer's neurons, then the output layer's, each neuron's weights followed by its bias. Its properties are `EncodeLength`, `EncodeAt`, `EncodeLayer` and the round trips below. |
| NetworkSpec.Offset | Neuroevolution/Neuroevolution/NeuralNetwork.cs:112-120 | The position the `ii` counter has reached at weight `k` of neuron `j` of a layer (`k` equal to the neuron's input count being its bias). Its meaning is stated by `OffsetSpan`, `EncodeAt`, `DecodeHiddenAt` and `DecodeOutputAt`. |
| NetworkSpec.LayerStart | Neuroevolution/Neuroevolution/NeuralNetwork.cs:110-122 | The value of `ii` when the layer loop reaches a layer; layer 3 starts at `ParamCount`. Its meaning is stated by `OffsetSpan`, `LayerSpan` and `EncodeLayer`. |
| NetworkSpec.OffsetSpan | Neuroevolution/Neuroevolution/NeuralNetwork.cs:110-121 | Weight `k` of neuron `j` lies at `Offset`, and each layer starts at `LayerStart`. These closed forms are exactly where the `ii` counter stands as it walks the layers neuron by neuron, weights then bias: `Span(inputs, j) + k` in the hidden layer, and `Span(inputs, hidden) + Span(hidden, j) + k` in the output layer. |
| NetworkSpec.DecodeUnits | Neuroevolution/Neuroevolution/NeuralNetwork.cs:135-144 | Reading `count` neurons of `width` weights from the front of the vector yields exactly `count` neurons of `width` weights each. |
| NetworkSpec.Decode | Neuroevolution/Neuroevolution/NeuralNetwork.cs:128-148 | Reading a gene vector of at least `ParamCount` genes always yields a network of the requested shape. |
| NetworkSpec.LayerSpan | Neuroevolution/Neuroevolution/NeuralNetwork.cs:107-121 | Layer `l` occupies `(width + 1) * count` genes after the previous layers, and all layers fit inside the `(inputs + 1) * hidden + (hidden + 1) * outputs` genes allocated at line 107. |
| NetworkSpec.SpanProduct | Neuroevolution/Neuroevolution/NeuralNetwork.cs:107 | Neuron by neuron, `count` neurons of `width` weights and one bias take `count * (width + 1)` genes, the size line 107 allocates per layer. |
| NetworkSpec.EncodeLength | Neuroevolution/Neuroevolution/NeuralNetwork.cs:107 | The encoding of a well-shaped network has exactly the allocated length. |
| NetworkSpec.EncodeAt | Neuroevolution/Neuroevolution/NeuralNetwork.cs:112-120 | Gene `Offset(layer, j, k)` is weight `k` of neuron `j` of that layer, and gene `Offset(layer, j, width)` is its bias. |
| NetworkSpec.EncodeLayer | Neuroevolution/Neuroevolution/NeuralNetwork.cs:110-122 | The genes of layer `l` are one contiguous block `[LayerStart(l), LayerStart(l + 1))` holding that layer's units flattened. |
| NetworkSpec.DecodeHiddenAt | Neuroevolution/Neuroevolution/NeuralNetwork.cs:135-144 | Hidden neuron `j` of a decoded network takes its weights from the `inputs` genes at its offset and its bias from the gene after them. |
| NetworkSpec.DecodeOutputAt | Neuroevolution/Neuroevolution/NeuralNetwork.cs:135-144 | Output neuron `j` of a decoded network takes its weights from the `hidden` genes at its offset and its bias from the gene after them. |
| NetworkSpec.FlattenDecodeUnits | Neuroevolution/Neuroevolution/NeuralNetwork.cs:135-144 | Reading `count` neurons and writing them back gives exactly the genes that were read. |
| NetworkSpec.DecodeFlattenUnits | Neuroevolution/Neuroevolution/NeuralNetwork.cs:112-121 | Writing neurons and reading them back gives the same neurons, whatever follows them. |
| NetworkSpec.DecodeFromLoaded | Neuroevolution/Neuroevolution/NeuralNetwork.cs:128-148 | Suppose a network's hidden and output neurons hold exactly the genes at their offsets. Then decoding the gene vector gives that network's parameters. |
| NetworkSpec.EncodeDecode | Neuroevolution/Neuroevolution/NeuralNetwork.cs:101-148 | Converting a gene vector of exactly `ParamCount` genes to a network and back gives the same vector. |
| NetworkSpec.DecodeEncode | Neuroevolution/Neuroevolution/NeuralNetwork.cs:101-148 | Converting a network to a gene vector and back gives the same network. |
| NetworkSpec.Dot | Neuroevolution/Neuroevolution/NeuralNetwork.cs:33-37 | The weighted sum of the inner loop; with all weights zero, as a freshly constructed neuron has, it is 0. |
| NetworkSpec.Activation | Neuroevolution/Neuroevolution/NeuralNetwork.cs:33-38 | A neuron's value: with all weights zero it is just the bias. |
| NetworkSpec.LayerOutput | Neuroevolution/Neuroevolution/NeuralNetwork.cs:31-40 | A layer computes one value per neuron. |
| NetworkSpec.Evaluate | Neuroevolution/Neuroevolution/NeuralNetwork.cs:28-41 | Evaluating through the hidden layer yields one value per output neuron. |
| NetworkSpec.DotCombine | Neuroevolution/Neuroevolution/NeuralNetwork.cs:33-37 | A neuron's weighted sum is linear in its inputs: the sum over `x + y - z` is the sum over `x`, plus that over `y`, minus that over `z`. |
| NetworkSpec.EvaluateAffine | Neuroevolution/Neuroevolution/NeuralNetwork.cs:25-42 | No activation function is applied, so the network is an affine map. The outputs for `x + y - z` are the outputs for `x`, plus those for `y`, minus those for `z`. |
| NeuralNet.SameButValuesKeeps | Neuroevolution/Neuroevolution/NeuralNetwork.cs:39 | Overwriting neuron values keeps the layer's weights, biases, weight arrays and shape. |
| NeuralNet.SameButParamsKeeps | Neuroevolution/Neuroevolution/NeuralNetwork.cs:139-142 | Overwriting weights and biases keeps the layer's shape, its weight arrays and its values. |
| NeuralNet.WeightedFits | Neuroevolution/Neuroevolution/NeuralNetwork.cs:34-36 | A neuron with `inputNum` weights reads only the `inputNum` values the previous layer has. |
| NeuralNet.LoadedUnits | Neuroevolution/Neuroevolution/NeuralNetwork.cs:135-144 | Neurons loaded from the genes at their offsets have weight arrays, and their units are the genes at those offsets. |
| NeuralNet.Assembled | Neuroevolution/Neuroevolution/NeuralNetwork.cs:15-23 | Three freshly created layers of the right sizes make a valid network with zero parameters and zero values. |
| NeuralNet.NeuralNetwork.Parameters | Neuroevolution/Neuroevolution/NeuralNetwork.cs:152-165 | The weights and biases of a valid network always have the network's shape. |
| NeuralNet.NeuralNetwork.Genes | Neuroevolution/Neuroevolution/NeuralNetwork.cs:107 | The gene vector of a valid network has `ParamCount` genes. |
| NeuralNet.Neuron | Neuroevolution/Neuroevolution/NeuralNetwork.cs:158-165 | A neuron is a struct value: its input count, its value, a reference to its weight array (null for input neurons) and its bias. Copying it copies the reference, not the array. |
| NeuralNet.NeuronLayer | Neuroevolution/Neuroevolution/NeuralNetwork.cs:151-156 | A layer is a struct value: its neuron count and a reference to the array of its neurons. |
| NeuralNet.NeuralNetwork.Valid | Neuroevolution/Neuroevolution/NeuralNetwork.cs:45-98 | The shape the constructor builds and every method keeps. There are three layers with distinct neuron arrays, and each `neuronNum` equals its array's length. Input neurons have `inputNum == 0` and a null weight array. Each hidden or output neuron owns its own weight array, of the previous layer's size, shared with no other neuron. |
| NeuralNet.NeuralNetwork.constructor | Neuroevolution/Neuroevolution/NeuralNetwork.cs:17-23 | The constructor builds a valid network of the given sizes. Its weights, biases and values are all zero, and its representation is fresh. |
| NeuralNet.NeuralNetwork.FeedForward | Neuroevolution/Neuroevolution/NeuralNetwork.cs:25-42 | Afterwards the hidden values are the hidden layer applied to the input values, and the output values are `Evaluate` of the parameters on the inputs. Shape, parameters and input values are unchanged. |
| NeuralNet.NeuralNetwork.FeedInto | Neuroevolution/Neuroevolution/NeuralNetwork.cs:31-40 | One pass of the layer loop: layer `i`'s values become `LayerOutput` of layer `i - 1`'s values, and every other layer is unchanged. |
| NeuralNet.NeuralNetwork.FeedLayer | Neuroevolution/Neuroevolution/NeuralNetwork.cs:31-40 | The neuron loop stores in each neuron its `Activation`. Nothing but the values changes. |
| NeuralNet.NeuralNetwork.NeuronValue | Neuroevolution/Neuroevolution/NeuralNetwork.cs:33-38 | The inner loop computes the bias plus the weighted sum of the previous layer's values. |
| NeuralNet.NeuralNetwork.ToArrayFrom | Neuroevolution/Neuroevolution/NeuralNetwork.cs:101-125 | Starting at layer `first`, the copy fails with `NullReference` exactly when it starts at the input layer and that layer has neurons. Otherwise it returns a freshly allocated array holding `Encode` of the parameters, of length `ParamCount`. |
| NeuralNet.NeuralNetwork.CopyLayer | Neuroevolution/Neuroevolution/NeuralNetwork.cs:112-121 | Copying layer `i` fails exactly when `i` is the non-empty input layer. Otherwise it extends the correct prefix of the gene vector to `LayerStart(i + 1)`. |
| NeuralNet.NeuralNetwork.StoreLayer | Neuroevolution/Neuroevolution/NeuralNetwork.cs:112-121 | The neuron loop fails on a neuron without a weight array. Otherwise it writes every neuron's weights and bias at its offset, leaves the genes before the layer alone, and returns the index after the layer. |
| NeuralNet.NeuralNetwork.StoreLayerGenes | Neuroevolution/Neuroevolution/NeuralNetwork.cs:112-121 | The neuron loop over one layer fails exactly on a null weight array. Otherwise it extends the prefix of the vector that holds the network's genes over the whole layer, and returns the index after it. |
| NeuralNet.NeuralNetwork.StoreNeuron | Neuroevolution/Neuroevolution/NeuralNetwork.cs:114-120 | Neuron `j`'s weights and bias go to their offsets, and the neurons before it stay written. |
| NeuralNet.NeuralNetwork.CopyNeuron | Neuroevolution/Neuroevolution/NeuralNetwork.cs:114-120 | The weight loop copies the weights to `[ii, ii + n)` and the bias to `ii + n`, and the genes before `ii` are kept. |
| NeuralNet.NeuralNetwork.ToArray | Neuroevolution/Neuroevolution/NeuralNetwork.cs:101-125 | The corrected flattening: the result is a freshly allocated array of `ParamCount` genes holding `Encode` of the network's parameters, so the caller owns it and it shares nothing with the network. |
| NeuralNet.NeuralNetwork.ToArrayAsWritten | Neuroevolution/Neuroevolution/NeuralNetwork.cs:110-114 | As written, the flattening fails with `NullReference` exactly when the input layer has neurons. Otherwise it returns a fresh array holding `Encode` of the parameters. |
| NeuralNet.NeuralNetwork.ConvertArrayFrom | Neuroevolution/Neuroevolution/NeuralNetwork.cs:128-148 | Loading from layer `first` fails with `NullReference` when it starts at a non-empty input layer. It fails with `IndexOutOfRange` when the vector is shorter than `ParamCount`. Otherwise it returns a fresh valid network of the given sizes, whose parameters are `Decode` of the vector and whose values are zero. |
| NeuralNet.NeuralNetwork.ConvertArray | Neuroevolution/Neuroevolution/NeuralNetwork.cs:128-148 | The corrected conversion fails with `IndexOutOfRange` exactly when the vector is shorter than `ParamCount`. Otherwise it returns a fresh valid network of the given sizes, whose parameters are `Decode` of the vector and whose neuron values are all 0, as the constructor at line 130 leaves them. |
| NeuralNet.NeuralNetwork.ConvertArrayAsWritten | Neuroevolution/Neuroevolution/NeuralNetwork.cs:133-137 | As written, the conversion fails with `NullReference` whenever there are input neurons, and otherwise with `IndexOutOfRange` exactly on a short vector. When there are no inputs and the vector is long enough it returns a fresh valid network of the given sizes, with `Decode` parameters and zero values. |
| NeuralNet.NeuralNetwork.LoadStep | Neuroevolution/Neuroevolution/NeuralNetwork.cs:133-145 | One pass of the layer loop: it fails exactly on the conditions above. Otherwise it advances the index to `LayerStart(i + 1)` with layer `i` loaded. |
| NeuralNet.NeuralNetwork.LoadInto | Neuroevolution/Neuroevolution/NeuralNetwork.cs:135-144 | Layer `i` receives the genes at its offsets. Sizes, values and the other layers are unchanged, and the method fails exactly when a read runs past the vector or a weight array is null. |
| NeuralNet.NeuralNetwork.LoadLayer | Neuroevolution/Neuroevolution/NeuralNetwork.cs:135-144 | The neuron loop fails with `NullReference` or `IndexOutOfRange` at the first such neuron. Otherwise every neuron holds the genes at its offset, and values are kept. |
| NeuralNet.NeuralNetwork.LoadNeuron | Neuroevolution/Neuroevolution/NeuralNetwork.cs:137-143 | Neuron `j` receives its weights and bias. The read fails exactly when it runs past the vector. |
| NeuralNet.NeuralNetwork.FillNeuron | Neuroevolution/Neuroevolution/NeuralNetwork.cs:137-141 | The weight loop fills the weight array from `weights[ii..]`, and fails exactly when the vector ends first. |
| NeuralNet.NeuralNetwork.CreateInputLayer | Neuroevolution/Neuroevolution/NeuralNetwork.cs:45-59 | An input layer holds `neuronNum` fresh neurons, none with weights, all with value 0. |
| NeuralNet.NeuralNetwork.CreateNeuronLayer | Neuroevolution/Neuroevolution/NeuralNetwork.cs:62-76 | A weighted layer holds `neuronNum` neurons, each with a fresh, distinct array of `inputNum` zero weights, bias 0 and value 0. |
| NeuralNet.NeuralNetwork.CreateInputNeuron | Neuroevolution/Neuroevolution/NeuralNetwork.cs:79-86 | An input neuron has no inputs, no weight array and value 0. |
| NeuralNet.NeuralNetwork.CreateNeuron | Neuroevolution/Neuroevolution/NeuralNetwork.cs:89-98 | A weighted neuron has `inputNum` inputs, a fresh array of `inputNum` zero weights, bias 0 and value 0. |
| GeneticSpec.Selection | Neuroevolution/Neuroevolution/GeneticAlgorithm.cs:234-239 | The three selection methods. `Compute` implements only `Roulette`; the others pass the population through. |
| GeneticSpec.Crossover | Neuroevolution/Neuroevolution/GeneticAlgorithm.cs:241-245 | The two crossover methods, one-point and two-point. |
| GeneticSpec.Mutation | Neuroevolution/Neuroevolution/GeneticAlgorithm.cs:247-252 | The three mutation methods. `Gaussian` is not implemented and leaves the children unchanged. |
| GeneticSpec.SumMono | Neuroevolution/Neuroevolution/GeneticAlgorithm.cs:77-80 | With non-negative fitness the prefix sums are non-negative and grow. |
| GeneticSpec.WrappedSum | Neuroevolution/Neuroevolution/GeneticAlgorithm.cs:77-80 | The fitness accumulated in an `int` agrees with the true sum modulo 2^32. |
| GeneticSpec.TotalFitness | Neuroevolution/Neuroevolution/GeneticAlgorithm.cs:70-80 | The total fitness agrees with the true total modulo 2^32. |
| GeneticSpec.WrappedSumExact | Neuroevolution/Neuroevolution/GeneticAlgorithm.cs:77-80 | If the fitness values are non-negative and their total fits in an `int`, the wrapped total is the true total. |
| GeneticSpec.PickFrom | Neuroevolution/Neuroevolution/GeneticAlgorithm.cs:87-95 | The scan picks an individual at or after its start, or the default index 0 when it runs off the end. |
| GeneticSpec.Pick | Neuroevolution/Neuroevolution/GeneticAlgorithm.cs:83-96 | Every pick indexes an individual of a non-empty population. |
| GeneticSpec.PickInterval | Neuroevolution/Neuroevolution/GeneticAlgorithm.cs:83-96 | Assume non-negative fitness whose total fits in an `int`. A draw in [0, total) picks the unique individual whose slice of the accumulated fitness contains the draw, and that individual's fitness is positive. |
| GeneticSpec.PickZeroTotal | Neuroevolution/Neuroevolution/GeneticAlgorithm.cs:83-96 | With all fitness 0, the draw is 0 and individual 0 is picked. |
| GeneticSpec.PickScenario | Neuroevolution/Neuroevolution/GeneticAlgorithm.cs:83-96 | With fitness 1, 2, 3, 4, draws 0, 3 and 9 pick individuals 0, 2 and 3. |
| GeneticSpec.PickAsWritten | Neuroevolution/Neuroevolution/GeneticAlgorithm.cs:87-95 | The scan as written, accumulating `fitness[i]`, still picks an index inside the population. |
| GeneticSpec.PickAsWrittenDiverges | Neuroevolution/Neuroevolution/GeneticAlgorithm.cs:89 | Take fitness 0, 5 and the valid draw 3. As written, slot 0 picks the zero-fitness individual 0, where the intended scan picks individual 1. |
| GeneticSpec.SelectParents | Neuroevolution/Neuroevolution/GeneticAlgorithm.cs:67-106 | Selection returns one parent per fitness value, each one of the gene vectors. It succeeds whenever the total is non-negative (or there is no fitness) and no more fitness values than gene vectors are given. |
| GeneticSpec.SelectZeroFitness | Neuroevolution/Neuroevolution/GeneticAlgorithm.cs:67-106 | With all fitness 0, every parent is the first gene vector. |
| GeneticSpec.Select | Neuroevolution/Neuroevolution/GeneticAlgorithm.cs:67-106 | Selection fails with `ArgumentOutOfRange` when the total is negative and with `IndexOutOfRange` when a pick lies past the gene vectors. Otherwise it yields one parent per fitness value, each one of the gene vectors. |
| GeneticSpec.Cut | Neuroevolution/Neuroevolution/GeneticAlgorithm.cs:117-123 | Truncating every gene vector to `len` gives vectors of exactly `len` genes. |
| GeneticSpec.Partner | Neuroevolution/Neuroevolution/GeneticAlgorithm.cs:125-139 | Individuals `i` and `i + 1` (for even `i`) are each other's partner: a partner is a different individual of the same pair. |
| GeneticSpec.Child | Neuroevolution/Neuroevolution/GeneticAlgorithm.cs:128-140 | A child has the gene length of the first parent. |
| GeneticSpec.Exchange | Neuroevolution/Neuroevolution/GeneticAlgorithm.cs:119-141 | Crossover yields one child per parent, each of the first parent's gene length. |
| GeneticSpec.ExchangeGene | Neuroevolution/Neuroevolution/GeneticAlgorithm.cs:128-140 | Gene `j` of child `i` is its partner's gene inside the pair's window and its own parent's gene outside it. |
| GeneticSpec.ExchangeConserves | Neuroevolution/Neuroevolution/GeneticAlgorithm.cs:128-140 | At every position, a pair of children holds the same two genes as their parents, as a multiset. |
| GeneticSpec.ExchangeTwice | Neuroevolution/Neuroevolution/GeneticAlgorithm.cs:125-141 | Exchanging again with the same windows gives back the parents, cut to the gene length. |
| GeneticSpec.DivisionBound | Neuroevolution/Neuroevolution/GeneticAlgorithm.cs:127-161 | The bound of the division draw: `geneLength` for one-point crossover (line 127) and `geneLength / 2` for two-point (line 161). It never exceeds the gene length, and for two points it is at most half of it. |
| GeneticSpec.PairWindow | Neuroevolution/Neuroevolution/GeneticAlgorithm.cs:127-166 | The genes a pair exchanges start at its division. For a division drawn within `DivisionBound`, the window lies inside the gene vector: for one point it runs to the end (`j < division` keeps, lines 130-139), and for two points it spans `geneLength / 2` genes (lines 162-173). `OnePointWindowInside` and `TwoPointWindowInside` give the exact shapes. |
| GeneticSpec.Windows | Neuroevolution/Neuroevolution/GeneticAlgorithm.cs:125-127 | Pair `p` gets the `PairWindow` of its own division draw `division(p, DivisionBound(...))`; its properties are those of `PairWindow`. |
| GeneticSpec.TwoPointWindowInside | Neuroevolution/Neuroevolution/GeneticAlgorithm.cs:161-162 | A two-point window drawn with `Next(0, len / 2)` lies inside the gene vector and exchanges exactly `len / 2` genes. |
| GeneticSpec.OnePointWindowInside | Neuroevolution/Neuroevolution/GeneticAlgorithm.cs:127-130 | A one-point division drawn with `Next(0, len)` lies in [0, len), so at least the last gene is exchanged. |
| GeneticSpec.CrossTwice | Neuroevolution/Neuroevolution/GeneticAlgorithm.cs:113-179 | Crossing the children again with the same draws gives back the parents. |
| GeneticSpec.CrossScenario | Neuroevolution/Neuroevolution/GeneticAlgorithm.cs:113-179 | Parents 0000 and 1111 give 0011 and 1100 at one-point division 2. They give 0110 and 1001 at two-point division 1. |
| GeneticSpec.PairAsWritten | Neuroevolution/Neuroevolution/GeneticAlgorithm.cs:128-140 | The gene loop as written keeps both children at their allocated length when it does not fail. |
| GeneticSpec.CrossAsWrittenDiverges | Neuroevolution/Neuroevolution/GeneticAlgorithm.cs:133 | As written, parents 0000 and 1111 at division 2 give a second child of 1000, where 1100 is intended. In a population of four two-gene individuals, a second pair that keeps a gene outside its window (one-point division 1) fails with an index out of range. |
| GeneticSpec.Cross | Neuroevolution/Neuroevolution/GeneticAlgorithm.cs:113-179 | Crossover fails only with `IndexOutOfRange`. Otherwise it yields one child per parent, all of the first parent's gene length. |
| GeneticSpec.WrapOnce | Neuroevolution/Neuroevolution/GeneticAlgorithm.cs:221-223 | The wrap never increases a value and brings any sum in [0, 2] back into [0, 1]. |
| GeneticSpec.WrapOnceRange | Neuroevolution/Neuroevolution/GeneticAlgorithm.cs:221-223 | A gene in [0, 1] plus a draw in [0, 1), wrapped once, stays in [0, 1]. |
| GeneticSpec.WrapOnceScenario | Neuroevolution/Neuroevolution/GeneticAlgorithm.cs:221-223 | 0.9 + 0.5 wraps to 0.4, while 0.5 + 0.5 stays 1.0, because the test is strict. |
| GeneticSpec.RowReads | Neuroevolution/Neuroevolution/GeneticAlgorithm.cs:195-200 | Which genes of an individual mutation reads. Uniform mutation reads every gene (line 221 and line 226), while random reset reads `genes[i][j]` only when it keeps the gene (line 200). Mutation fails with an index out of range exactly when a read gene is missing (`MutateRow`, `Mutate`). |
| GeneticSpec.MutatedRow | Neuroevolution/Neuroevolution/GeneticAlgorithm.cs:195-201 | A mutated gene vector has the first gene vector's length. |
| GeneticSpec.Mutated | Neuroevolution/Neuroevolution/GeneticAlgorithm.cs:193-202 | Mutation yields one gene vector per individual, each of the first gene vector's length. |
| GeneticSpec.MutateZeroRate | Neuroevolution/Neuroevolution/GeneticAlgorithm.cs:186-231 | A rate of 0 or less changes no gene. |
| GeneticSpec.MutateFullRate | Neuroevolution/Neuroevolution/GeneticAlgorithm.cs:186-205 | A rate of 1 or more resets every gene to its sample draw, and never reads past a gene vector. |
| GeneticSpec.MutateFullRateUniform | Neuroevolution/Neuroevolution/GeneticAlgorithm.cs:208-231 | A rate of 1 or more makes uniform mutation add its sample draw to every gene, wrapped once, and never fail on equally long gene vectors. |
| GeneticSpec.Mutate | Neuroevolution/Neuroevolution/GeneticAlgorithm.cs:186-231 | Mutation fails only with `IndexOutOfRange`. Otherwise it yields one gene vector per individual, all of the first gene vector's length. |
| GeneticSpec.MutateKeepsUnit | Neuroevolution/Neuroevolution/GeneticAlgorithm.cs:186-231 | Both mutations keep every gene in [0, 1]. |
| GeneticSpec.MutateAfterCross | Neuroevolution/Neuroevolution/GeneticAlgorithm.cs:32-36 | Mutating the children of a successful crossover never fails. |
| GeneticSpec.GenerationOutcome | Neuroevolution/Neuroevolution/GeneticAlgorithm.cs:12-37 | A generation fails exactly when selection or crossover fails, with their exception. Mutation never decides the outcome. |
| GeneticSpec.GenerationCompletes | Neuroevolution/Neuroevolution/GeneticAlgorithm.cs:12-37 | A generation over an even, non-empty population of equal-length gene vectors completes. It needs one non-negative fitness per individual, with a total that fits in an `int`. |
| GeneticSpec.Generation | Neuroevolution/Neuroevolution/GeneticAlgorithm.cs:12-37 | One generation of `Compute`: the read of `genes[0]`, then selection (roulette, or the population itself), crossover and mutation, in that order. The first failure is the outcome. What it means is stated by `GenerationOutcome` and `GenerationCompletes`. |
| GeneticAlgorithm.SumFitness | Neuroevolution/Neuroevolution/GeneticAlgorithm.cs:77-80 | The loop computes the wrapped total fitness. |
| GeneticAlgorithm.PickParent | Neuroevolution/Neuroevolution/GeneticAlgorithm.cs:85-95 | The inner loop computes `Pick` for the draw. |
| GeneticAlgorithm.RouletteSelect | Neuroevolution/Neuroevolution/GeneticAlgorithm.cs:67-106 | Selection fails exactly as `Select` does, with the same exception. Otherwise it returns a fresh outer array whose rows are the picked gene arrays themselves, shared rather than copied. |
| GeneticAlgorithm.AllocateRows | Neuroevolution/Neuroevolution/GeneticAlgorithm.cs:119-123 | The children are `n` fresh, distinct arrays of `len` zero genes. |
| GeneticAlgorithm.CrossPair | Neuroevolution/Neuroevolution/GeneticAlgorithm.cs:128-140 | The gene loop of one pair fails exactly when a parent is shorter than the gene length. Otherwise it fills both children as `Child` says. |
| GeneticAlgorithm.CrossStep | Neuroevolution/Neuroevolution/GeneticAlgorithm.cs:125-141 | One pass of the pair loop fails exactly when the pair is incomplete or a parent is too short. Otherwise two more children are crossed. |
| GeneticAlgorithm.CrossedCovers | Neuroevolution/Neuroevolution/GeneticAlgorithm.cs:125-141 | Once every child is crossed, every parent has at least the gene length. |
| GeneticAlgorithm.CrossedAll | Neuroevolution/Neuroevolution/GeneticAlgorithm.cs:125-141 | Once every child is crossed, the children are `Exchange` of the parents. |
| GeneticAlgorithm.CrossAllPairs | Neuroevolution/Neuroevolution/GeneticAlgorithm.cs:125-141 | The pair loop completes exactly when there are no genes, or when the population is even and every parent has the gene length. |
| GeneticAlgorithm.CrossoverWith | Neuroevolution/Neuroevolution/GeneticAlgorithm.cs:113-179 | Crossover fails exactly as `Cross` does. Otherwise the children are a fresh array holding `Cross` of the parents. Every child row is a freshly allocated array, distinct from every other, so no child shares a row with a parent. |
| GeneticAlgorithm.CrossoverOnePoint | Neuroevolution/Neuroevolution/GeneticAlgorithm.cs:113-144 | One-point crossover fails exactly as `Cross` with one-point windows does, each pair's division drawn with `Next(0, geneLength)`. Otherwise the children are a fresh array holding that `Cross` of the parents. Every child row is a freshly allocated array, distinct from every other, so no child shares a row with a parent. |
| GeneticAlgorithm.CrossoverTwoPoint | Neuroevolution/Neuroevolution/GeneticAlgorithm.cs:147-179 | Two-point crossover fails exactly as `Cross` with two-point windows does, each pair's division drawn with `Next(0, geneLength / 2)`. Otherwise the children are a fresh array holding that `Cross` of the parents. Every child row is a freshly allocated array, distinct from every other, so no child shares a row with a parent. |
| GeneticAlgorithm.MutateRow | Neuroevolution/Neuroevolution/GeneticAlgorithm.cs:195-201 | The gene loop fails exactly when it reads past the gene vector. Otherwise the row is `MutatedRow`. |
| GeneticAlgorithm.MutateWith | Neuroevolution/Neuroevolution/GeneticAlgorithm.cs:186-231 | The corrected mutation fails exactly as `Mutate` does. Otherwise it returns a fresh array holding `Mutate` of the gene vectors. Every row is a freshly allocated array, distinct from every other, so no result row is shared with the input. |
| GeneticAlgorithm.MutateRandom | Neuroevolution/Neuroevolution/GeneticAlgorithm.cs:186-205 | Random-reset mutation fails exactly as `Mutate` without the wrap does. Otherwise it returns a fresh array holding that `Mutate` of the gene vectors, each mutated gene being its sample draw. Every row is a freshly allocated array, distinct from every other, so no result row is shared with the input. |
| GeneticAlgorithm.MutateUniform | Neuroevolution/Neuroevolution/GeneticAlgorithm.cs:208-231 | Uniform mutation fails exactly as `Mutate` with the wrap does. Otherwise it returns a fresh array holding that `Mutate` of the gene vectors, each mutated gene being the old gene plus its sample draw, wrapped once. Every row is a freshly allocated array, distinct from every other, so no result row is shared with the input. |
| GeneticAlgorithm.MutateAsWritten | Neuroevolution/Neuroevolution/GeneticAlgorithm.cs:189-200 | As written, either mutation fails with `NullReference` whenever the first gene vector has a gene, because no row of the result is ever allocated. |
| GeneticAlgorithm.Compute | Neuroevolution/Neuroevolution/GeneticAlgorithm.cs:12-37 | One generation ends with exactly the outcome of `Generation`, the corrected operators being used. |

## Left out

- `GeneticAlgorithm.Randomize` is left out: it depends only on `System.Random`.
- `System.Random` is a parameter, not modelled:
  - its generator and seeding are not modelled;
  - each draw is a function parameter of its position and bound, which fixes one sequence of draws per call;
  - only the ranges of `Next` and `NextDouble` are used.
- IEEE `double` rounding is not modelled: weights, values and genes are exact `real`s.
- Tournament and truncation selection, and Gaussian mutation, are not modelled because the source does not implement them. `Compute` uses the population itself for the first two and skips mutation for the third.
- Out-of-range enum values are not modelled, so `Compute`'s final crossover branch (`children = parents`) cannot be reached. The enums are closed datatypes.
- `Compute`'s first statement reads `genes[0].Length` into a variable it never uses; the model keeps only that statement's failure on an empty population. `Compute` discards the children, so it returns only the outcome.
- Null arguments are not modelled: `genes`, `fitness`, `parents` and `weights` are non-null arrays, so the `NullReferenceException` a null argument raises on its first use is not modelled.
- 32-bit overflow of sizes and counters is not modelled. The array size `(inputs + 1) * hidden + (hidden + 1) * outputs` (NeuralNetwork.cs line 107), the `ii` counters of `ToArray` and `ConvertArray`, and the loop indices are C# `int`s, but the model computes them as unbounded `nat`s. A network too large for that size to fit in an `int` would wrap around or fail to allocate in the source, and that is not modelled. Only the fitness total's wrap-around is modelled.
- Null rows in the inputs are not modelled: the gene vectors passed in are non-null arrays. Null rows that the code itself creates are modelled, as in `MutateAsWritten`.
- Negative layer sizes and population sizes are not modelled. Sizes are `nat`, so the `OverflowException` of `new T[n]` with `n < 0` does not arise.
- The network's `fitness` field is not modelled: none of the modelled operations reads or writes it.
- The allocation order in crossover is changed: the model allocates the child rows before the outer array. Nothing can observe the difference.
- The unpaired last individual is checked when its pair is crossed, which is where the source would raise the exception.

## Findings

| source | as written | input that shows it | evidently intended | confidence | as-written member | corrected member |
|---|---|---|---|---|---|---|
| Neuroevolution/Neuroevolution/NeuralNetwork.cs:110 | The layer loop starts at layer 0, whose input neurons have no weight array, so `weights.Length` at line 114 throws `NullReferenceException`. | Any network with at least one input neuron, e.g. `new NeuralNetwork(1, 1, 1).ToArray()`. | Start at layer 1, as `FeedForward` does, and flatten the hidden and output layers into the `(inputs + 1) * hidden + (hidden + 1) * outputs` genes allocated. | not executed | NeuralNet.NeuralNetwork.ToArrayAsWritten | NeuralNet.NeuralNetwork.ToArray |
| Neuroevolution/Neuroevolution/NeuralNetwork.cs:133 | The layer loop starts at layer 0, whose input neurons have no weight array, so line 137 throws `NullReferenceException`. | `ConvertArray(new double[4], 1, 1, 1)`. | Start at layer 1 and load the hidden and output layers, so that conversion inverts `ToArray`. | not executed | NeuralNet.NeuralNetwork.ConvertArrayAsWritten | NeuralNet.NeuralNetwork.ConvertArray |
| Neuroevolution/Neuroevolution/GeneticAlgorithm.cs:89 | The scan accumulates `fitness[i]`, the fitness of the slot being filled, instead of `fitness[j]`. | Fitness 0, 5 with draw 3 for slot 0: the accumulated fitness stays 0, no individual is reached, and the zero-fitness individual 0 is picked. | Accumulate `fitness[j]`, so that a draw in [0, total) picks the individual whose slice contains it. | not executed | GeneticSpec.PickAsWrittenDiverges | GeneticSpec.PickInterval |
| Neuroevolution/Neuroevolution/GeneticAlgorithm.cs:133 | Outside the window the second child receives its gene at index `i`, the pair index, instead of `j`. The same happens at line 168. | Parents 0000 and 1111 with one-point division 2 give a second child of 1000. In a population of four two-gene individuals, the second pair throws `IndexOutOfRangeException` when it keeps a gene outside its window (one-point division 1, or always with two-point). | Write `children[i + 1][j]`, so that the two children exchange exactly the genes inside the window. | not executed | GeneticSpec.CrossAsWrittenDiverges | GeneticSpec.ExchangeConserves |
| Neuroevolution/Neuroevolution/GeneticAlgorithm.cs:191 | The rows of `mutatedGenes` are never allocated, so the first gene written throws `NullReferenceException`. The same happens at line 213. | Any population whose first gene vector has a gene, e.g. `MutateRandom(new[] { new[] { 0.5 } }, 0.1)`. | Allocate `mutatedGenes[i] = new double[geneLength]` before the gene loop, so that mutation returns the mutated population. | not executed | GeneticAlgorithm.MutateAsWritten | GeneticAlgorithm.MutateWith |
