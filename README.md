# Unidirectional k-ary n-cube (booksim2 `UnidirectionalTorus`)

This project models, in Dafny, how booksim2 builds the unidirectional torus
network (`src/networks/unidirectional_torus.cpp`) and proves properties of
the result.

The network has `k^n` routers. A node number is a mixed-radix number in
base `k`, with dimension 0 the least significant digit. Every node owns one
outbound torus channel per dimension, numbered `n * node + dim`.

The model has four modules:

- `MixedRadix` (`mixed_radix.dfy`): `Pow`, which stands for `powi`, and the
  digit function `Coord(k, x, d) = (x / k^d) % k`. It also proves that a node
  number is fixed by its digits, and that replacing one digit keeps the number
  in range and leaves the other digits alone.
- `TorusAddress` (`torus_address.dfy`) holds the address helpers:
  - `_EastChannel` and `_SouthChannel`;
  - `_EastNode`, `_NorthNode`, `_WestNode` and `_SouthNode`.

  They are pure functions. `k` and `n` are passed explicitly, because the
  simulator reads them from the network's own fields.
- `UnidirectionalTorusNetwork` (`torus_network.dfy`) holds the network
  object, as class `UnidirectionalTorus`:
  - `ComputeSize` sets the fields. `Alloc` creates the router slots and
    per-channel latency arrays.
  - `BuildNet` is the node loop of `_BuildNet`. Each iteration of its body is
    the method `BuildRouter`. That method writes the router name through the
    `dim_offset` loop (`WriteCoordinates`), then binds the outputs, the inputs
    and the local ports, and sets the latencies.
  - Each method is proved against functions that say what the builder
    produces for a node: `RouterNameSpec`, `TorusOutputs`, `TorusInputs` and
    `RouterSpec`.
  - The wiring properties, the channel bijection above all, are lemmas about
    those functions.
- `RoutingRegistry` (`routing_registry.dfy`) is the registration of
  `dor_unidirectional_torus` in the global routing-function map, modelled as a
  single map update.

A router is a value holding its name, its id, its declared input and output
counts, and the ports bound to it in binding order. Binding a channel appends
to one of those lists. A port is one of three things:

- torus channel `c`, which stands for the pair `_chan[c]` / `_chan_cred[c]`;
- the injection channel of a node;
- the ejection channel of a node.

The router name is the sequence of items written to the `ostringstream`: text
pieces and integers.

Two points of the code worth stating outright:

- **Latency.** Torus links get latency 2 when `use_noc_latency` is 1, and
  latency 1 for any other value, without any error.
- **Input wiring.** In dimension 0 a router reads the channel of its
  backward neighbour (`_WestNode`). In every other dimension it reads the
  channel of its forward neighbour (`_NorthNode`, which computes the same node
  as `_EastNode`). So the reader of channel `c` is the owner's forward
  neighbour when `c % n == 0`, and its backward neighbour otherwise (`Reader`).
  The bijection holds all the same.

## Model

| member | source | states |
|---|---|---|
| MixedRadix.Pow | src/networks/unidirectional_torus.cpp:58 | powi: k to the power d, computed by repeated multiplication; at least 1 when k >= 1 |
| MixedRadix.Coord | src/networks/unidirectional_torus.cpp:84 | the coordinate (node / k^d) % k of a node in dimension d, always in [0, k) |
| TorusAddress.EastChannel | src/networks/unidirectional_torus.cpp:140-147 | the expression of :143-146: n * node + dim |
| TorusAddress.SouthChannel | src/networks/unidirectional_torus.cpp:149-162 | the expression of :153-161: n * node + dim for dim == 1, the east channel otherwise |
| TorusAddress.EastNode | src/networks/unidirectional_torus.cpp:164-176 | the expression of :166-174: coordinate dim moves forward by one, subtracting (k-1)*k^dim when it is k-1 and adding k^dim otherwise |
| TorusAddress.SouthNode | src/networks/unidirectional_torus.cpp:178-190 | the expression of :180-188: coordinate dim moves back by one, adding (k-1)*k^dim when it is 0 and subtracting k^dim otherwise |
| TorusAddress.WestNode | src/networks/unidirectional_torus.cpp:192-204 | the expression of :194-202: coordinate dim moves back by one, adding (k-1)*k^dim when it is 0 and subtracting k^dim otherwise |
| TorusAddress.NorthNode | src/networks/unidirectional_torus.cpp:206-218 | the expression of :208-216: coordinate dim moves forward by one, subtracting (k-1)*k^dim when it is k-1 and adding k^dim otherwise |
| UnidirectionalTorusNetwork.TorusLatency | src/networks/unidirectional_torus.cpp:107-114 | the latency given to each torus data and credit channel: 2 when on-chip latency is selected, 1 otherwise |
| UnidirectionalTorusNetwork.InputNeighbor | src/networks/unidirectional_torus.cpp:121-126 | the node whose channel a router reads along dim: _WestNode for dim 0, _NorthNode for every other dim |
| UnidirectionalTorusNetwork.Reader | src/networks/unidirectional_torus.cpp:121-129 | the router that reads channel c: the forward neighbour of its owner c / n when c % n == 0, the backward neighbour otherwise |
| UnidirectionalTorusNetwork.RouterNameSpec | src/networks/unidirectional_torus.cpp:80-86 | the name router `node` gets: "router", then "_" and each coordinate from dimension n-1 down to 0 when k > 1 |
| UnidirectionalTorusNetwork.OutputPorts | src/networks/unidirectional_torus.cpp:96-134 | the outputs of router `node` in binding order: its torus channels in dimension order, then its ejection channel |
| UnidirectionalTorusNetwork.InputPorts | src/networks/unidirectional_torus.cpp:117-133 | the inputs of router `node` in binding order: the channels it reads in dimension order, then its injection channel |
| UnidirectionalTorusNetwork.NewRouter | src/networks/unidirectional_torus.cpp:90-91 | a router with the given name, id and declared input and output counts, and no port bound yet |
| UnidirectionalTorusNetwork.Router.AddInputChannel | src/networks/unidirectional_torus.cpp:129 | binds a port as the router's next input, keeping everything else |
| UnidirectionalTorusNetwork.Router.AddOutputChannel | src/networks/unidirectional_torus.cpp:105 | binds a port as the router's next output, keeping everything else |
| UnidirectionalTorusNetwork.UnidirectionalTorus.ComputeSize | src/networks/unidirectional_torus.cpp:52-63 | sets k and n from the settings, size = k^n, channels = n * size and nodes = size |
| UnidirectionalTorusNetwork.UnidirectionalTorus.Alloc | src/networks/unidirectional_torus.cpp:44-50 | allocates one empty router slot per node, and fresh, separate latency arrays for the channels, their credit channels, injection and ejection |
| UnidirectionalTorusNetwork.UnidirectionalTorus.constructor | src/networks/unidirectional_torus.cpp:44-50 | size computation, allocation and wiring leave a network in which every router and every latency is as `Built` describes |
| UnidirectionalTorusNetwork.UnidirectionalTorus.BuildNet | src/networks/unidirectional_torus.cpp:70-138 | after the node loop every router `node` equals RouterSpec(k, n, node), every torus data and credit channel has TorusLatency(use_noc_latency == 1), and every injection and ejection channel has latency 1 |
| UnidirectionalTorusNetwork.UnidirectionalTorus.BuildRouter | src/networks/unidirectional_torus.cpp:78-137 | one iteration: if routers 0 .. node-1 are built and their channels have the latency, then afterwards routers 0 .. node are built, channels below n*(node+1) have the latency, and injection and ejection of 0 .. node have latency 1. The name buffer is empty again afterwards, and the later routers, their injection and ejection latencies and the channels from n*(node+1) up are unchanged |
| UnidirectionalTorusNetwork.UnidirectionalTorus.BindOutputChannels | src/networks/unidirectional_torus.cpp:96-115 | appends the node's own channel in every dimension to its outputs, in dimension order. Its channels n*node .. n*node+n-1 get latency 2 if use_noc_latency is 1, else 1. No other router and no other channel latency changes |
| UnidirectionalTorusNetwork.UnidirectionalTorus.BindInputChannels | src/networks/unidirectional_torus.cpp:117-130 | appends, in dimension order, the channel of the west neighbour (dimension 0) or of the north neighbour (other dimensions) to the node's inputs |
| UnidirectionalTorusNetwork.UnidirectionalTorus.BindLocalPorts | src/networks/unidirectional_torus.cpp:132-136 | adds the injection input and the ejection output last, both with latency 1 |
| UnidirectionalTorusNetwork.UnidirectionalTorus.BuiltIsDesigned | src/networks/unidirectional_torus.cpp:78-137 | the routers of a built network are exactly DesignedRouters(k, n) |
| UnidirectionalTorusNetwork.UnidirectionalTorus.BuiltBindsEachChannelOnce | src/networks/unidirectional_torus.cpp:96-130 | in a built network each channel index in [0, channels) is bound as an output by exactly one router and as an input by exactly one router, and no other index is bound |
| UnidirectionalTorusNetwork.WriteCoordinates | src/networks/unidirectional_torus.cpp:82-86 | the dim_offset loop terminates when k > 1, and appends "_c" for each coordinate from dimension n-1 down to 0 |
| UnidirectionalTorusNetwork.CoordinateSegments | src/networks/unidirectional_torus.cpp:82-86 | the coordinate part of the name has two items per dimension |
| UnidirectionalTorusNetwork.SegmentAt | src/networks/unidirectional_torus.cpp:82-86 | item 2i of the coordinate part is "_" and item 2i+1 is the coordinate of dimension j-1-i |
| UnidirectionalTorusNetwork.NameEncodesCoordinates | src/networks/unidirectional_torus.cpp:80-86 | for k > 1 the name is "router" and then exactly n segments "_", (node / k^d) % k for d from n-1 down to 0 |
| UnidirectionalTorusNetwork.RouterNamesDistinct | src/networks/unidirectional_torus.cpp:80-86 | for k > 1 two different routers of the network get different names |
| UnidirectionalTorusNetwork.SingleRouterForRadixOne | src/networks/unidirectional_torus.cpp:82 | for k = 1 the network has one router, named just "router" (the k > 1 guard skips the loop that would not end) |
| UnidirectionalTorusNetwork.RouterSpec | src/networks/unidirectional_torus.cpp:90-91 | a finished router has id node and declares n + 1 inputs and n + 1 outputs. It has exactly that many bound, with injection and ejection last |
| UnidirectionalTorusNetwork.TorusOutputs | src/networks/unidirectional_torus.cpp:96-105 | one torus output per dimension |
| UnidirectionalTorusNetwork.TorusInputs | src/networks/unidirectional_torus.cpp:118-130 | one torus input per dimension |
| UnidirectionalTorusNetwork.TorusOutputsAt | src/networks/unidirectional_torus.cpp:96-105 | output d is the channel c with c / n == node and c % n == d |
| UnidirectionalTorusNetwork.TorusInputsAt | src/networks/unidirectional_torus.cpp:118-130 | input d is a channel of the network, of dimension d, whose Reader is the node |
| UnidirectionalTorusNetwork.OutputMultiplicity | src/networks/unidirectional_torus.cpp:96-105 | a router binds channel c as an output once if c / n is the router and c % n is one of its dimensions, and otherwise not at all |
| UnidirectionalTorusNetwork.InputMultiplicity | src/networks/unidirectional_torus.cpp:118-130 | a router binds channel c as an input once if c is a channel of the network and the router is its Reader, and otherwise not at all |
| UnidirectionalTorusNetwork.InputNeighborIff | src/networks/unidirectional_torus.cpp:122-126 | a node reads owner's channel along dim exactly when it is owner's forward neighbour (dim 0) or backward neighbour (dim >= 1) |
| UnidirectionalTorusNetwork.InputChannelIff | src/networks/unidirectional_torus.cpp:117-130 | c is the channel a router reads along dim exactly when c is in [0, channels), has dimension dim and has that router as Reader |
| UnidirectionalTorusNetwork.InputChannelReadBy | src/networks/unidirectional_torus.cpp:122-129 | the channel a router reads along dim is in [0, channels) and its Reader is that router |
| UnidirectionalTorusNetwork.NeighborInRange | src/networks/unidirectional_torus.cpp:122-126 | the neighbour a router reads from is a node of the network |
| UnidirectionalTorusNetwork.ReaderInRange | src/networks/unidirectional_torus.cpp:122-129 | the reader of every channel is a node of the network |
| UnidirectionalTorusNetwork.ReaderIsNotWriter | src/networks/unidirectional_torus.cpp:100-129 | for k > 1 no router reads a channel it writes |
| UnidirectionalTorusNetwork.FinishedRouterTorusPorts | src/networks/unidirectional_torus.cpp:132-133 | the injection and ejection ports add no torus channel to a router |
| UnidirectionalTorusNetwork.WriterCount | src/networks/unidirectional_torus.cpp:96-105 | router j of the network binds channel c as an output once if c is in [0, n*k^n) and j == c / n, and otherwise not at all |
| UnidirectionalTorusNetwork.ReaderCount | src/networks/unidirectional_torus.cpp:117-130 | router j of the network binds channel c as an input once if c is in [0, n*k^n) and j is its Reader, and otherwise not at all |
| UnidirectionalTorusNetwork.EachChannelWrittenOnce | src/networks/unidirectional_torus.cpp:96-105 | across all routers each channel in [0, n*k^n) is an output exactly once, and no other index is. Router j binds channel c as an output once if c is in range and j == c / n, and otherwise not at all |
| UnidirectionalTorusNetwork.EachChannelReadOnce | src/networks/unidirectional_torus.cpp:117-130 | across all routers each channel in [0, n*k^n) is an input exactly once, and no other index is. Router j binds channel c as an input once if c is in range and j is its Reader, and otherwise not at all |
| UnidirectionalTorusNetwork.RadixThreePlaneExample | src/networks/unidirectional_torus.cpp:78-137 | in the 3-ary 2-cube router 4 is named router_1_1. It writes channels 8 and 9, and reads 6 from west neighbour 3 and 15 from north neighbour 7 |
| UnidirectionalTorusNetwork.DesignedRouters | src/networks/unidirectional_torus.cpp:78 | one router per node, k^n in all |
| TorusAddress.EastChannelDecode | src/networks/unidirectional_torus.cpp:140-147 | channel n*node+dim decodes to node = c / n and dim = c % n |
| TorusAddress.EastChannelIff | src/networks/unidirectional_torus.cpp:140-147 | c is the channel of (node, dim) exactly when c >= 0, c / n == node and c % n == dim |
| TorusAddress.EastChannelInjective | src/networks/unidirectional_torus.cpp:140-147 | different (node, dim) pairs with dim < n get different channels |
| TorusAddress.EastChannelInRange | src/networks/unidirectional_torus.cpp:140-147 | for node < size and dim < n the channel lies in [0, n*size) |
| TorusAddress.EastChannelOnto | src/networks/unidirectional_torus.cpp:140-147 | every c in [0, n*size) is the channel of (c / n, c % n), with c / n < size |
| TorusAddress.SouthChannelIsEast | src/networks/unidirectional_torus.cpp:149-162 | _SouthChannel returns the same value as _EastChannel for every input |
| TorusAddress.EastNodeCompose | src/networks/unidirectional_torus.cpp:164-176 | the east step replaces digit dim by (c+1) mod k and keeps the lower and higher digits |
| TorusAddress.WestNodeCompose | src/networks/unidirectional_torus.cpp:192-204 | the west step replaces digit dim by (c+k-1) mod k and keeps the lower and higher digits |
| TorusAddress.EastNodeStep | src/networks/unidirectional_torus.cpp:164-176 | the east neighbour of a node stays in [0, k^n). Its coordinate dim is (c+1) mod k and every other coordinate is unchanged |
| TorusAddress.WestNodeStep | src/networks/unidirectional_torus.cpp:192-204 | the west neighbour of a node stays in [0, k^n). Its coordinate dim is (c+k-1) mod k and every other coordinate is unchanged |
| TorusAddress.EastNodeCoord | src/networks/unidirectional_torus.cpp:164-176 | for any node the east step is non-negative and moves coordinate dim to (c+1) mod k |
| TorusAddress.WestNodeCoord | src/networks/unidirectional_torus.cpp:192-204 | for any node the west step is non-negative and moves coordinate dim to (c+k-1) mod k |
| TorusAddress.EastWestInverse | src/networks/unidirectional_torus.cpp:164-204 | east after west, and west after east, give back the node |
| TorusAddress.SingleNodeRings | src/networks/unidirectional_torus.cpp:164-204 | for k = 1 both steps return the node itself (a self-loop) |
| TorusAddress.StepsLeaveNode | src/networks/unidirectional_torus.cpp:164-204 | for k > 1 neither step returns the node itself |
| TorusAddress.NorthNodeIsEast | src/networks/unidirectional_torus.cpp:206-218 | _NorthNode computes the same node as _EastNode |
| TorusAddress.SouthNodeIsWest | src/networks/unidirectional_torus.cpp:178-190 | _SouthNode computes the same node as _WestNode |
| TorusAddress.DigitStepsCancel | src/networks/unidirectional_torus.cpp:164-204 | on one digit, a step forward and a step backward cancel |
| TorusAddress.DigitStepMoves | src/networks/unidirectional_torus.cpp:164-204 | for k > 1 a step forward or backward changes the digit |
| MixedRadix.CoordsDetermineNode | src/networks/unidirectional_torus.cpp:84 | two node numbers below k^m with the same m coordinates are equal, so the printed coordinates identify the node |
| MixedRadix.ReplaceInRange | src/networks/unidirectional_torus.cpp:166-175 | replacing one digit of a node below k^m gives a node below k^m |
| MixedRadix.ReplaceKeepsOthers | src/networks/unidirectional_torus.cpp:166-175 | replacing digit d leaves every other digit unchanged |
| RoutingRegistry.WithTorusRouting | src/networks/unidirectional_torus.cpp:65-68 | registration maps "dor_unidirectional_torus" to the dimension-order torus routing function and leaves every other key and its entry unchanged |
| RoutingRegistry.RoutingFunctionMap.RegisterRoutingFunctions | src/networks/unidirectional_torus.cpp:65-68 | the registry after the call is WithTorusRouting of the registry before it |
| RoutingRegistry.RegistrationIdempotent | src/networks/unidirectional_torus.cpp:65-68 | registering twice gives the same registry as registering once |
| RoutingRegistry.RegistrationIgnoresPreviousEntry | src/networks/unidirectional_torus.cpp:65-68 | whatever the registry held under the torus key before, it is overwritten |

## Left out

- `GetN` and `GetK` are plain field reads. The fields `n` and `k` of the class are public in the model.
- `Capacity` returns the floating-point constant 1.0; floating point is not modelled.
- `InsertRandomFaults` only delegates to the `Network` base class, which is not part of this model.
- The `Network` base constructor, `Router::NewRouter` and the router internals are not modelled. `NewRouter` records the name, id and declared port counts. `AddInputChannel` and `AddOutputChannel` only append the port.
- `Configuration::GetInt` and config parsing: `k`, `n` and `use_noc_latency` are constructor parameters.
- `k >= 1` and `n >= 1` are preconditions, because the code does not validate them.
- The process-wide globals `gK` and `gN` are not modelled. Neither is the `_timed_modules` registration of each router.
- `_Alloc` belongs to the base class and is not part of this model. The model's `Alloc` starts every latency at 0, standing for "not set yet".
- The credit channels of injection and ejection (`_inject_cred`, `_eject_cred`) are bound but their latency is never set by the builder. The model binds one port per injection or ejection pair and has no latency array for those credit channels.
- The body of `dim_order_unidirectional_torus` (declared in `src/routefunc.hpp`) is not shown. The registry entry is the plain constant `DimOrderUnidirectionalTorus`.
- C++ `int` overflow in `powi`, `_n*_size` and `_n*node` is not modelled. Integers are unbounded, so the model assumes `n * k^n` fits in an `int`.
- The `ostringstream` renders each coordinate in decimal. The model keeps the coordinate as an integer item of the name, so it does not prove that two names differ as character strings, only as item sequences.
- `_BuildNet`'s loop body is split into the methods `BuildRouter`, `BindOutputChannels`, `BindInputChannels` and `BindLocalPorts`, each proved on its own. The statements and their order are those of the source.
- Updating the router slot in place through a pointer (`_routers[node]->Add...`) is modelled as storing a new router value in the array slot.
