/**
  Construction of the unidirectional k-ary n-cube (class UnidirectionalTorus).

  The network object computes its size, allocates its routers and channels,
  and then wires every router: one output channel per dimension (the
  router's own), one input channel per dimension (a neighbour's output
  channel), an injection input and an ejection output, and sets the channel
  latencies.

  Channels are index spaces: torus channel `c` stands for the pair
  `_chan[c]` / `_chan_cred[c]`, injection and ejection port `node` for
  `_inject[node]` / `_eject[node]` and their credit channels. A router is a
  value recording its name, id, declared port counts and the ports bound to
  it, in binding order.
*/
module UnidirectionalTorusNetwork {
  import opened MixedRadix
  import opened TorusAddress

  /** What a router port is bound to. */
  datatype Port = TorusChannel(c: int) | Injection(node: nat) | Ejection(node: nat)

  /** One item written to the router-name stream: literal text or an integer
      (printed in decimal by the stream). */
  datatype NameToken = Text(s: string) | Number(v: int)

  /** A router slot: `Unbuilt` is the empty slot the allocation leaves, and
      `Router` a router with the ports bound to it so far. */
  datatype Router =
    | Unbuilt
    | Router(name: seq<NameToken>, id: nat, inputCount: nat, outputCount: nat,
             inputs: seq<Port>, outputs: seq<Port>)
  {
    function AddInputChannel(p: Port): Router
      requires Router?
    {
      this.(inputs := inputs + [p])
    }

    function AddOutputChannel(p: Port): Router
      requires Router?
    {
      this.(outputs := outputs + [p])
    }
  }

  /** A fresh router with its declared port counts and nothing bound yet. */
  function NewRouter(name: seq<NameToken>, id: nat, inputs: nat, outputs: nat): Router
  {
    Router(name, id, inputs, outputs, [], [])
  }

  // ---------------------------------------------------------------------------
  // What the builder produces, as functions of k, n and the node

  /** Latency of every torus data and credit channel: 2 when on-chip latency
      is selected (the `use_noc_latency` setting is 1), 1 otherwise. */
  function TorusLatency(useNocLatency: bool): int
  {
    if useNocLatency then 2 else 1
  }

  /** "_c" for the coordinates of `node` in dimensions j-1 down to 0. */
  function CoordinateSegments(k: nat, node: nat, j: nat): (segments: seq<NameToken>)
    requires k >= 1
    ensures |segments| == 2 * j
  {
    if j == 0 then [] else [Text("_"), Number(Coord(k, node, j - 1))] + CoordinateSegments(k, node, j - 1)
  }

  /** The name of router `node`: "router", then its coordinates from the most
      significant dimension down when k > 1. */
  function RouterNameSpec(k: nat, n: nat, node: nat): seq<NameToken>
    requires k >= 1
  {
    [Text("router")] + (if k > 1 then CoordinateSegments(k, node, n) else [])
  }

  /** The node whose outbound channel router `node` reads along `dim`: the
      backward neighbour in dimension 0 and, as the builder is written, the
      forward neighbour (NorthNode) in every other dimension. */
  function InputNeighbor(k: nat, node: nat, dim: nat): int
    requires k >= 1
  {
    if dim == 0 then WestNode(k, node, dim) else NorthNode(k, node, dim)
  }

  /** The torus output ports of router `node` in dimensions 0 .. dims-1, in
      binding order: its own channel in each dimension. */
  function TorusOutputs(n: nat, node: nat, dims: nat): (ports: seq<Port>)
    ensures |ports| == dims
  {
    if dims == 0 then []
    else TorusOutputs(n, node, dims - 1) + [TorusChannel(EastChannel(n, node, dims - 1))]
  }

  /** The torus input ports of router `node` in dimensions 0 .. dims-1, in
      binding order: the channel its input neighbour drives in each dimension. */
  function TorusInputs(k: nat, n: nat, node: nat, dims: nat): (ports: seq<Port>)
    requires k >= 1
    ensures |ports| == dims
  {
    if dims == 0 then []
    else TorusInputs(k, n, node, dims - 1) + [TorusChannel(EastChannel(n, InputNeighbor(k, node, dims - 1), dims - 1))]
  }

  /** Output ports of router `node` in binding order. */
  function OutputPorts(n: nat, node: nat): seq<Port>
  {
    TorusOutputs(n, node, n) + [Ejection(node)]
  }

  /** Input ports of router `node` in binding order. */
  function InputPorts(k: nat, n: nat, node: nat): seq<Port>
    requires k >= 1
  {
    TorusInputs(k, n, node, n) + [Injection(node)]
  }

  /** Router `node` once the builder is done with it. */
  function RouterSpec(k: nat, n: nat, node: nat): (r: Router)
    requires k >= 1
    ensures r.Router? && r.id == node
    ensures |r.inputs| == r.inputCount == n + 1 && |r.outputs| == r.outputCount == n + 1
    ensures r.inputs[n] == Injection(node) && r.outputs[n] == Ejection(node)
  {
    Router(RouterNameSpec(k, n, node), node, n + 1, n + 1, InputPorts(k, n, node), OutputPorts(n, node))
  }

  /** The router that reads torus channel `c`: for dimension 0 the forward
      neighbour of the channel's owner, for the other dimensions its backward
      neighbour. */
  function Reader(k: nat, n: nat, c: nat): int
    requires k >= 1 && n >= 1
  {
    var owner, dim := c / n, c % n;
    if dim == 0 then EastNode(k, owner, dim) else WestNode(k, owner, dim)
  }

  // ---------------------------------------------------------------------------
  // Which router reads and which router writes each torus channel

  /** A non-negative c lies below n * m exactly when c / n lies below m. */
  lemma BelowIffQuotientBelow(n: nat, m: nat, c: int)
    requires n >= 1 && c >= 0
    ensures c < n * m <==> c / n < m
  {
    var q := c / n;
    assert c == n * q + c % n && 0 <= c % n < n;
    if q < m {
      MulMonotone(n, q, m - 1);
      assert n * (m - 1) == n * m - n;
    } else {
      MulMonotone(n, m, q);
    }
  }

  /** Router `node` drives torus channel c, once, exactly when c is one of
      its channels n * node + dim; counted over its first `dims` dimensions. */
  lemma {:induction false} OutputMultiplicity(n: nat, node: nat, dims: nat, c: int)
    requires n >= 1 && dims <= n
    ensures multiset(TorusOutputs(n, node, dims))[TorusChannel(c)] ==
            if c >= 0 && c / n == node && c % n < dims then 1 else 0
  {
    ModBelow(c, n);
    if dims > 0 {
      var channel := EastChannel(n, node, dims - 1);
      OutputMultiplicity(n, node, dims - 1, c);
      AppendCount(TorusOutputs(n, node, dims - 1), TorusChannel(channel), TorusChannel(c));
      EastChannelIff(n, node, dims - 1, c);
    }
  }

  /** Output port d of router `node` (d < dims) is its own channel of
      dimension d: the channel c with c / n == node and c % n == d. */
  lemma {:induction false} TorusOutputsAt(n: nat, node: nat, dims: nat, d: nat)
    requires d < dims <= n
    ensures TorusOutputs(n, node, dims)[d].TorusChannel?
    ensures var c := TorusOutputs(n, node, dims)[d].c; c >= 0 && c / n == node && c % n == d
  {
    if d < dims - 1 {
      TorusOutputsAt(n, node, dims - 1, d);
      assert TorusOutputs(n, node, dims)[d] == TorusOutputs(n, node, dims - 1)[d];
    } else {
      EastChannelDecode(n, node, d);
    }
  }

  /** Input port d of router `node` (d < dims) is a channel of the network of
      dimension d whose reader is `node`. */
  lemma {:induction false} TorusInputsAt(k: nat, n: nat, node: nat, dims: nat, d: nat)
    requires k >= 1 && node < Pow(k, n) && d < dims <= n
    ensures TorusInputs(k, n, node, dims)[d].TorusChannel?
    ensures var c := TorusInputs(k, n, node, dims)[d].c;
              0 <= c < n * Pow(k, n) && c % n == d && Reader(k, n, c) == node
  {
    if d < dims - 1 {
      TorusInputsAt(k, n, node, dims - 1, d);
      assert TorusInputs(k, n, node, dims)[d] == TorusInputs(k, n, node, dims - 1)[d];
    } else {
      NeighborInRange(k, n, node, d);
      var neighbor: nat := InputNeighbor(k, node, d);
      assert TorusInputs(k, n, node, dims)[d] == TorusChannel(EastChannel(n, neighbor, d));
      InputChannelReadBy(k, n, node, d);
      EastChannelDecode(n, neighbor, d);
    }
  }

  /** The neighbour a router reads along `dim`, turned around: router `node`
      reads the channel of `owner` along `dim` exactly when `node` is the
      forward neighbour of `owner` (dimension 0) or its backward neighbour
      (other dimensions). */
  lemma InputNeighborIff(k: nat, node: nat, owner: nat, dim: nat)
    requires k >= 1
    ensures InputNeighbor(k, node, dim) == owner <==>
            node == (if dim == 0 then EastNode(k, owner, dim) else WestNode(k, owner, dim))
  {
    EastWestInverse(k, node, dim);
    EastWestInverse(k, owner, dim);
  }

  /** The reader of a channel in range is a node of the network. */
  lemma ReaderInRange(k: nat, n: nat, c: nat)
    requires k >= 1 && n >= 1 && c < n * Pow(k, n)
    ensures 0 <= Reader(k, n, c) < Pow(k, n)
  {
    EastChannelOnto(n, Pow(k, n), c);
    var owner: nat, dim: nat := c / n, c % n;
    if dim == 0 {
      EastNodeStep(k, n, owner, dim);
    } else {
      WestNodeStep(k, n, owner, dim);
    }
  }

  /** Router `node` reads torus channel c, once, exactly when c is a channel
      of the network and `node` is its reader; counted over its first `dims`
      dimensions. */
  lemma {:induction false} InputMultiplicity(k: nat, n: nat, node: nat, dims: nat, c: int)
    requires k >= 1 && n >= 1 && node < Pow(k, n) && dims <= n
    ensures multiset(TorusInputs(k, n, node, dims))[TorusChannel(c)] ==
            if 0 <= c < n * Pow(k, n) && Reader(k, n, c) == node && c % n < dims then 1 else 0
  {
    ModBelow(c, n);
    if dims > 0 {
      var dim := dims - 1;
      var e := TorusChannel(EastChannel(n, InputNeighbor(k, node, dim), dim));
      InputMultiplicity(k, n, node, dim, c);
      AppendCount(TorusInputs(k, n, node, dim), e, TorusChannel(c));
      InputChannelIff(k, n, node, dim, c);
    }
  }

  /** c is the channel router `node` reads along `dim` exactly when c is a
      channel of the network, of dimension `dim`, whose reader is `node`. */
  lemma InputChannelIff(k: nat, n: nat, node: nat, dim: nat, c: int)
    requires k >= 1 && node < Pow(k, n) && dim < n
    ensures c == EastChannel(n, InputNeighbor(k, node, dim), dim) <==>
            0 <= c < n * Pow(k, n) && Reader(k, n, c) == node && c % n == dim
  {
    NeighborInRange(k, n, node, dim);
    var neighbor: nat := InputNeighbor(k, node, dim);
    InputChannelReadBy(k, n, node, dim);
    EastChannelDecode(n, neighbor, dim);
    if 0 <= c < n * Pow(k, n) && Reader(k, n, c) == node && c % n == dim {
      EastChannelOnto(n, Pow(k, n), c);
      var owner: nat := c / n;
      InputNeighborIff(k, node, owner, dim);
    }
  }

  /** The channel router `node` reads along `dim` is a channel of the network
      whose reader is `node`. */
  lemma InputChannelReadBy(k: nat, n: nat, node: nat, dim: nat)
    requires k >= 1 && node < Pow(k, n) && dim < n
    ensures 0 <= EastChannel(n, InputNeighbor(k, node, dim), dim) < n * Pow(k, n)
    ensures Reader(k, n, EastChannel(n, InputNeighbor(k, node, dim), dim)) == node
  {
    var nb := InputNeighbor(k, node, dim);
    NeighborInRange(k, n, node, dim);
    EastChannelInRange(n, Pow(k, n), nb, dim);
    EastChannelDecode(n, nb, dim);
    InputNeighborIff(k, node, nb, dim);
  }

  /** The neighbour a router reads from is a node of the network. */
  lemma NeighborInRange(k: nat, n: nat, node: nat, dim: nat)
    requires k >= 1 && node < Pow(k, n) && dim < n
    ensures 0 <= InputNeighbor(k, node, dim) < Pow(k, n)
  {
    if dim == 0 {
      WestNodeStep(k, n, node, dim);
    } else {
      EastNodeStep(k, n, node, dim);
    }
  }

  /** For k > 1 no router reads a channel it drives itself. */
  lemma ReaderIsNotWriter(k: nat, n: nat, c: nat)
    requires k > 1 && n >= 1
    ensures Reader(k, n, c) != c / n
  {
    StepsLeaveNode(k, c / n, c % n);
  }

  /** Appending port e adds one occurrence of e and none of any other port. */
  lemma AppendCount(s: seq<Port>, e: Port, x: Port)
    ensures multiset(s + [e])[x] == multiset(s)[x] + if x == e then 1 else 0
  {
    assert multiset(s + [e]) == multiset(s) + multiset{e};
  }

  /** A finished router binds the same torus channels as its torus ports: its
      injection and ejection ports are not torus channels. */
  lemma FinishedRouterTorusPorts(k: nat, n: nat, node: nat, c: int)
    requires k >= 1
    ensures multiset(RouterSpec(k, n, node).outputs)[TorusChannel(c)] ==
            multiset(TorusOutputs(n, node, n))[TorusChannel(c)]
    ensures multiset(RouterSpec(k, n, node).inputs)[TorusChannel(c)] ==
            multiset(TorusInputs(k, n, node, n))[TorusChannel(c)]
  {
    AppendCount(TorusOutputs(n, node, n), Ejection(node), TorusChannel(c));
    AppendCount(TorusInputs(k, n, node, n), Injection(node), TorusChannel(c));
  }

  /** All the ports in a sequence of per-router port multisets. */
  function Union(ms: seq<multiset<Port>>): multiset<Port>
  {
    if |ms| == 0 then multiset{} else Union(ms[..|ms| - 1]) + ms[|ms| - 1]
  }

  /** A port found once in the multiset of router `owner` and in no other
      router's multiset occurs once in the union; a port found in none occurs
      nowhere (owner out of range). */
  lemma {:induction false} UnionCount(ms: seq<multiset<Port>>, x: Port, owner: int)
    requires forall j :: 0 <= j < |ms| ==> ms[j][x] == if j == owner then 1 else 0
    ensures Union(ms)[x] == if 0 <= owner < |ms| then 1 else 0
  {
    if |ms| > 0 {
      var last := |ms| - 1;
      assert forall j :: 0 <= j < last ==> ms[..last][j] == ms[j];
      UnionCount(ms[..last], x, owner);
    }
  }

  /** The output ports of each router slot, as multisets (none for an empty
      slot). */
  function OutputSets(rs: seq<Router>): (ms: seq<multiset<Port>>)
    ensures |ms| == |rs|
  {
    seq(|rs|, j requires 0 <= j < |rs| => if rs[j].Router? then multiset(rs[j].outputs) else multiset{})
  }

  /** The input ports of each router slot, as multisets (none for an empty
      slot). */
  function InputSets(rs: seq<Router>): (ms: seq<multiset<Port>>)
    ensures |ms| == |rs|
  {
    seq(|rs|, j requires 0 <= j < |rs| => if rs[j].Router? then multiset(rs[j].inputs) else multiset{})
  }

  /** The routers of the k-ary n-cube as the builder leaves them. */
  function DesignedRouters(k: nat, n: nat): (rs: seq<Router>)
    requires k >= 1
    ensures |rs| == Pow(k, n)
  {
    seq(Pow(k, n), j requires 0 <= j => RouterSpec(k, n, j))
  }

  /** Router j of the network binds torus channel c as an output once if c
      is a channel of the network and j is its owner c / n, and otherwise not
      at all. */
  lemma WriterCount(k: nat, n: nat, j: nat, c: int)
    requires k >= 1 && n >= 1 && j < Pow(k, n)
    ensures OutputSets(DesignedRouters(k, n))[j][TorusChannel(c)] ==
            if 0 <= c < n * Pow(k, n) && j == c / n then 1 else 0
  {
    FinishedRouterTorusPorts(k, n, j, c);
    OutputMultiplicity(n, j, n, c);
    ModBelow(c, n);
    if 0 <= c {
      BelowIffQuotientBelow(n, Pow(k, n), c);
    }
  }

  /** Router j of the network binds torus channel c as an input once if c is
      a channel of the network and j is its Reader, and otherwise not at all. */
  lemma ReaderCount(k: nat, n: nat, j: nat, c: int)
    requires k >= 1 && n >= 1 && j < Pow(k, n)
    ensures InputSets(DesignedRouters(k, n))[j][TorusChannel(c)] ==
            if 0 <= c < n * Pow(k, n) && j == Reader(k, n, c) then 1 else 0
  {
    FinishedRouterTorusPorts(k, n, j, c);
    InputMultiplicity(k, n, j, n, c);
    ModBelow(c, n);
  }

  /** Every torus channel of the network is an output of exactly one router,
      its owner c / n, and no other index is bound as an output. */
  lemma EachChannelWrittenOnce(k: nat, n: nat, c: int)
    requires k >= 1 && n >= 1
    ensures Union(OutputSets(DesignedRouters(k, n)))[TorusChannel(c)] ==
            if 0 <= c < n * Pow(k, n) then 1 else 0
    ensures forall j :: 0 <= j < Pow(k, n) ==>
              OutputSets(DesignedRouters(k, n))[j][TorusChannel(c)] ==
              if 0 <= c < n * Pow(k, n) && j == c / n then 1 else 0
  {
    var size, ms := Pow(k, n), OutputSets(DesignedRouters(k, n));
    var writer := -1;
    if 0 <= c < n * size {
      BelowIffQuotientBelow(n, size, c);
      DivNonNegative(c, n);
      writer := c / n;
    }
    forall j | 0 <= j < size
      ensures ms[j][TorusChannel(c)] == if 0 <= c < n * size && j == c / n then 1 else 0
    {
      WriterCount(k, n, j, c);
    }
    UnionCount(ms, TorusChannel(c), writer);
  }

  /** Every torus channel of the network is an input of exactly one router,
      its Reader, and no other index is bound as an input. */
  lemma EachChannelReadOnce(k: nat, n: nat, c: int)
    requires k >= 1 && n >= 1
    ensures Union(InputSets(DesignedRouters(k, n)))[TorusChannel(c)] ==
            if 0 <= c < n * Pow(k, n) then 1 else 0
    ensures forall j :: 0 <= j < Pow(k, n) ==>
              InputSets(DesignedRouters(k, n))[j][TorusChannel(c)] ==
              if 0 <= c < n * Pow(k, n) && j == Reader(k, n, c) then 1 else 0
  {
    var size, ms := Pow(k, n), InputSets(DesignedRouters(k, n));
    var reader := -1;
    if 0 <= c < n * size {
      ReaderInRange(k, n, c);
      reader := Reader(k, n, c);
    }
    forall j | 0 <= j < size
      ensures ms[j][TorusChannel(c)] == if 0 <= c < n * size && j == Reader(k, n, c) then 1 else 0
    {
      ReaderCount(k, n, j, c);
    }
    UnionCount(ms, TorusChannel(c), reader);
  }

  // ---------------------------------------------------------------------------
  // Router names

  /** Segment i of the coordinate part (counting from the most significant
      dimension j-1) is "_" followed by that coordinate. */
  lemma {:induction false} SegmentAt(k: nat, node: nat, j: nat, i: nat)
    requires k >= 1 && i < j
    ensures CoordinateSegments(k, node, j)[2 * i] == Text("_")
    ensures CoordinateSegments(k, node, j)[2 * i + 1] == Number(Coord(k, node, j - 1 - i))
  {
    if i > 0 {
      SegmentAt(k, node, j - 1, i - 1);
      var rest := CoordinateSegments(k, node, j - 1);
      assert CoordinateSegments(k, node, j) == [Text("_"), Number(Coord(k, node, j - 1))] + rest;
      assert CoordinateSegments(k, node, j)[2 * i] == rest[2 * (i - 1)];
      assert CoordinateSegments(k, node, j)[2 * i + 1] == rest[2 * (i - 1) + 1];
    }
  }

  /** For k > 1 the name of router `node` is "router" and then, for each
      dimension from n-1 down to 0, "_" and the node's coordinate there. */
  lemma NameEncodesCoordinates(k: nat, n: nat, node: nat)
    requires k > 1
    ensures |RouterNameSpec(k, n, node)| == 1 + 2 * n
    ensures RouterNameSpec(k, n, node)[0] == Text("router")
    ensures forall i :: 0 <= i < n ==>
              RouterNameSpec(k, n, node)[1 + 2 * i] == Text("_") &&
              RouterNameSpec(k, n, node)[2 + 2 * i] == Number(Coord(k, node, n - 1 - i))
  {
    var name, segments := RouterNameSpec(k, n, node), CoordinateSegments(k, node, n);
    forall i | 0 <= i < n
      ensures name[1 + 2 * i] == Text("_") && name[2 + 2 * i] == Number(Coord(k, node, n - 1 - i))
    {
      SegmentAt(k, node, n, i);
      assert name[1 + 2 * i] == segments[2 * i];
      assert name[2 + 2 * i] == segments[2 * i + 1];
    }
  }

  /** For k > 1 distinct routers get distinct names. */
  lemma RouterNamesDistinct(k: nat, n: nat, a: nat, b: nat)
    requires k > 1 && a < Pow(k, n) && b < Pow(k, n) && a != b
    ensures RouterNameSpec(k, n, a) != RouterNameSpec(k, n, b)
  {
    var sa, sb := CoordinateSegments(k, a, n), CoordinateSegments(k, b, n);
    if RouterNameSpec(k, n, a) == RouterNameSpec(k, n, b) {
      assert sa == RouterNameSpec(k, n, a)[1..] == RouterNameSpec(k, n, b)[1..] == sb;
      forall e | 0 <= e < n
        ensures Coord(k, a, e) == Coord(k, b, e)
      {
        SegmentAt(k, a, n, n - 1 - e);
        SegmentAt(k, b, n, n - 1 - e);
        assert sa[2 * (n - 1 - e) + 1] == sb[2 * (n - 1 - e) + 1];
      }
      CoordsDetermineNode(k, n, a, b);
    }
  }

  /** With k = 1 the network is the single router 0, named "router". */
  lemma {:induction false} SingleRouterForRadixOne(n: nat)
    ensures Pow(1, n) == 1
    ensures RouterNameSpec(1, n, 0) == [Text("router")]
  {
    if n > 0 {
      SingleRouterForRadixOne(n - 1);
    }
  }

  /** The 3-ary 2-cube: router 4 sits at coordinates (1, 1). It drives
      channels 8 and 9, reads channel 6 from its west neighbour 3 in
      dimension 0 and channel 15 from its north neighbour 7 in dimension 1. */
  lemma RadixThreePlaneExample()
    ensures RouterSpec(3, 2, 4).name == [Text("router"), Text("_"), Number(1), Text("_"), Number(1)]
    ensures RouterSpec(3, 2, 4).outputs == [TorusChannel(8), TorusChannel(9), Ejection(4)]
    ensures RouterSpec(3, 2, 4).inputs == [TorusChannel(6), TorusChannel(15), Injection(4)]
  {
    assert Coord(3, 4, 0) == 1 && Coord(3, 4, 1) == 1;
    assert WestNode(3, 4, 0) == 3 && NorthNode(3, 4, 1) == 7;
  }

  // ---------------------------------------------------------------------------
  // The router-name loop

  /** k^j / k for k > 1. */
  lemma PowDivRadix(k: nat, j: nat)
    requires k > 1
    ensures Pow(k, j) / k == if j == 0 then 0 else Pow(k, j - 1)
  {
    if j == 0 {
      DivModUnique(1, k, 0, 1);
    } else {
      DivModUnique(Pow(k, j), k, Pow(k, j - 1), 0);
    }
  }

  /** The channels of nodes 0 .. node fit below n * size when node < size. */
  lemma NextNodeChannels(n: nat, node: nat, size: nat)
    requires node < size
    ensures n * (node + 1) == n * node + n <= n * size
  {
    MulMonotone(n, node + 1, size);
  }

  lemma DivShrinks(x: int, k: int)
    requires x >= 1 && k > 1
    ensures x / k < x
  {
    var q := x / k;
    ModBelow(x, k);
    assert x == k * q + x % k;
    if q >= 1 {
      MulMonotone(q, 2, k);
      assert k * q >= 2 * q;
    }
  }

  /** The `dim_offset` loop of the builder: writes "_c" for each coordinate of
      `node`, most significant dimension first. It only terminates because
      k > 1, which the builder checks before entering it. */
  method WriteCoordinates(k: nat, n: nat, size: nat, node: nat, name: seq<NameToken>)
    returns (named: seq<NameToken>)
    requires k > 1 && size == Pow(k, n)
    ensures named == name + CoordinateSegments(k, node, n)
  {
    named := name;
    var dimOffset := size / k;
    PowDivRadix(k, n);
    ghost var j: nat := n;
    while dimOffset >= 1
      invariant j <= n
      invariant dimOffset == if j == 0 then 0 else Pow(k, j - 1)
      invariant name + CoordinateSegments(k, node, n) == named + CoordinateSegments(k, node, j)
      decreases dimOffset
    {
      named := named + [Text("_"), Number((node / dimOffset) % k)];
      PowDivRadix(k, j - 1);
      DivShrinks(dimOffset, k);
      dimOffset := dimOffset / k;
      j := j - 1;
    }
  }

  // ---------------------------------------------------------------------------
  // The network object

  class UnidirectionalTorus {
    var k: nat
    var n: nat
    var size: nat
    var channels: nat
    var nodes: nat
    var routers: array<Router>
    /** Latencies of `_chan[c]` and `_chan_cred[c]`. */
    var chanLatency: array<int>
    var chanCredLatency: array<int>
    /** Latencies of `_inject[node]` and `_eject[node]`. */
    var injectLatency: array<int>
    var ejectLatency: array<int>

    /** The topology parameters as size computation leaves them. */
    ghost predicate Sized()
      reads this
    {
      k >= 1 && n >= 1 && size == Pow(k, n) && channels == n * size && nodes == size
    }

    /** Sized, with one router slot per node, one latency per channel and
        four distinct latency arrays. */
    ghost predicate Valid()
      reads this
    {
      && Sized()
      && routers.Length == size
      && chanLatency.Length == channels && chanCredLatency.Length == channels
      && injectLatency.Length == size && ejectLatency.Length == size
      && chanLatency != chanCredLatency && chanLatency != injectLatency
      && chanLatency != ejectLatency && chanCredLatency != injectLatency
      && chanCredLatency != ejectLatency && injectLatency != ejectLatency
    }

    /** The state the builder leaves: every router wired as RouterSpec says and
        every latency set. */
    ghost predicate Built(useNocLatency: bool)
      reads this, routers, chanLatency, chanCredLatency, injectLatency, ejectLatency
      requires Valid()
    {
      && (forall node :: 0 <= node < size ==> routers[node] == RouterSpec(k, n, node))
      && (forall c :: 0 <= c < channels ==>
            chanLatency[c] == TorusLatency(useNocLatency) &&
            chanCredLatency[c] == TorusLatency(useNocLatency))
      && (forall node :: 0 <= node < size ==> injectLatency[node] == 1 && ejectLatency[node] == 1)
    }

    /** A built network holds exactly the designed routers. */
    lemma BuiltIsDesigned(useNocLatency: bool)
      requires Valid() && Built(useNocLatency)
      ensures routers[..] == DesignedRouters(k, n)
    {
    }

    /** In a built network every torus channel is an output of exactly one
        router and an input of exactly one router, and no other channel index
        is bound. */
    lemma BuiltBindsEachChannelOnce(useNocLatency: bool, c: int)
      requires Valid() && Built(useNocLatency)
      ensures Union(OutputSets(routers[..]))[TorusChannel(c)] == if 0 <= c < channels then 1 else 0
      ensures Union(InputSets(routers[..]))[TorusChannel(c)] == if 0 <= c < channels then 1 else 0
    {
      BuiltIsDesigned(useNocLatency);
      EachChannelWrittenOnce(k, n, c);
      EachChannelReadOnce(k, n, c);
    }

    /** Size computation, allocation and wiring, in that order. */
    constructor (kSetting: nat, nSetting: nat, useNocLatencySetting: int)
      requires kSetting >= 1 && nSetting >= 1
      ensures Valid() && k == kSetting && n == nSetting
      ensures Built(useNocLatencySetting == 1)
    {
      routers := new Router[0];
      chanLatency := new int[0];
      chanCredLatency := new int[0];
      injectLatency := new int[0];
      ejectLatency := new int[0];
      new;
      ComputeSize(kSetting, nSetting);
      Alloc();
      BuildNet(useNocLatencySetting);
    }

    /** size = k^n nodes, each with one outbound channel per dimension. */
    method ComputeSize(kSetting: nat, nSetting: nat)
      requires kSetting >= 1 && nSetting >= 1
      modifies this`k, this`n, this`size, this`channels, this`nodes
      ensures k == kSetting && n == nSetting
      ensures Sized()
    {
      k := kSetting;
      n := nSetting;
      size := Pow(k, n);
      channels := n * size;
      nodes := size;
    }

    /** Allocation: empty router slots and channels whose latency is not set
        yet (0 here). */
    method Alloc()
      requires Sized()
      modifies this`routers, this`chanLatency, this`chanCredLatency, this`injectLatency, this`ejectLatency
      ensures Valid()
      ensures fresh(routers) && fresh(chanLatency) && fresh(chanCredLatency)
      ensures fresh(injectLatency) && fresh(ejectLatency)
      ensures forall node :: 0 <= node < size ==> routers[node] == Unbuilt
    {
      routers := new Router[size](_ => Unbuilt);
      chanLatency := new int[channels](_ => 0);
      chanCredLatency := new int[channels](_ => 0);
      injectLatency := new int[size](_ => 0);
      ejectLatency := new int[size](_ => 0);
    }

    /** Wires every router and sets every channel latency. */
    method BuildNet(useNocLatencySetting: int)
      requires Valid()
      modifies routers, chanLatency, chanCredLatency, injectLatency, ejectLatency
      ensures Valid()
      ensures Built(useNocLatencySetting == 1)
    {
      var routerName: seq<NameToken> := [];
      var useNocLatency := useNocLatencySetting == 1;

      var node := 0;
      ghost var wired: nat := 0;
      while node < size
        invariant 0 <= node <= size
        invariant wired == n * node && wired <= channels
        invariant routerName == []
        invariant forall j :: 0 <= j < node ==> routers[j] == RouterSpec(k, n, j)
        invariant forall c :: 0 <= c < wired ==>
                    chanLatency[c] == TorusLatency(useNocLatency)
                    && chanCredLatency[c] == TorusLatency(useNocLatency)
        invariant forall j :: 0 <= j < node ==> injectLatency[j] == 1 && ejectLatency[j] == 1
      {
        NextNodeChannels(n, node, size);
        routerName := BuildRouter(node, routerName, useNocLatency, wired);
        wired := wired + n;
        node := node + 1;
      }
    }

    /** One iteration of the builder's node loop: names router `node` through
      * the shared name buffer (empty on entry, cleared again on exit), binds
      * its channels and sets their latencies. The routers before `node` and
      * their channels are already built and stay so. */
    method BuildRouter(node: nat, routerName: seq<NameToken>, useNocLatency: bool, ghost wired: nat)
      returns (clearedName: seq<NameToken>)
      requires Valid() && node < size && wired == n * node && wired + n <= channels
      requires routerName == []
      requires forall j :: 0 <= j < node ==> routers[j] == RouterSpec(k, n, j)
      requires forall c :: 0 <= c < wired ==>
                 chanLatency[c] == TorusLatency(useNocLatency)
                 && chanCredLatency[c] == TorusLatency(useNocLatency)
      requires forall j :: 0 <= j < node ==> injectLatency[j] == 1 && ejectLatency[j] == 1
      modifies routers, chanLatency, chanCredLatency, injectLatency, ejectLatency
      ensures clearedName == []
      ensures forall j :: 0 <= j <= node ==> routers[j] == RouterSpec(k, n, j)
      ensures forall c :: 0 <= c < wired + n ==>
                chanLatency[c] == TorusLatency(useNocLatency)
                && chanCredLatency[c] == TorusLatency(useNocLatency)
      ensures forall j :: 0 <= j <= node ==> injectLatency[j] == 1 && ejectLatency[j] == 1
      ensures forall j :: node < j < size ==>
                routers[j] == old(routers[j])
                && injectLatency[j] == old(injectLatency[j]) && ejectLatency[j] == old(ejectLatency[j])
      ensures forall c :: wired + n <= c < channels ==>
                chanLatency[c] == old(chanLatency[c]) && chanCredLatency[c] == old(chanCredLatency[c])
    {
      var name := routerName + [Text("router")];
      if k > 1 {
        name := WriteCoordinates(k, n, size, node, name);
      }
      routers[node] := NewRouter(name, node, n + 1, n + 1);
      clearedName := [];
      BindOutputChannels(node, useNocLatency, wired);
      BindInputChannels(node);
      BindLocalPorts(node);
    }

    /** The output half of one router's wiring: the node's own channel in every
      * dimension, with its latency. */
    method BindOutputChannels(node: nat, useNocLatency: bool, ghost wired: nat)
      requires Valid() && node < size && wired == n * node && wired + n <= channels
      requires routers[node] == Router(RouterNameSpec(k, n, node), node, n + 1, n + 1, [], [])
      modifies routers, chanLatency, chanCredLatency
      ensures routers[node] ==
              Router(RouterNameSpec(k, n, node), node, n + 1, n + 1, [], TorusOutputs(n, node, n))
      ensures forall j :: 0 <= j < size && j != node ==> routers[j] == old(routers[j])
      ensures forall c :: 0 <= c < wired ==>
                chanLatency[c] == old(chanLatency[c]) && chanCredLatency[c] == old(chanCredLatency[c])
      ensures forall c :: wired <= c < wired + n ==>
                chanLatency[c] == TorusLatency(useNocLatency)
                && chanCredLatency[c] == TorusLatency(useNocLatency)
      ensures forall c :: wired + n <= c < channels ==>
                chanLatency[c] == old(chanLatency[c]) && chanCredLatency[c] == old(chanCredLatency[c])
    {
      assert chanLatency != chanCredLatency;
      var dim := 0;
      while dim < n
        invariant 0 <= dim <= n
        invariant routers[node] ==
                  Router(RouterNameSpec(k, n, node), node, n + 1, n + 1, [], TorusOutputs(n, node, dim))
        invariant forall j :: 0 <= j < size && j != node ==> routers[j] == old(routers[j])
        invariant forall c :: 0 <= c < wired ==>
                    chanLatency[c] == old(chanLatency[c]) && chanCredLatency[c] == old(chanCredLatency[c])
        invariant forall c :: wired <= c < wired + dim ==>
                    chanLatency[c] == TorusLatency(useNocLatency)
                    && chanCredLatency[c] == TorusLatency(useNocLatency)
        invariant forall c :: wired + dim <= c < channels ==>
                    chanLatency[c] == old(chanLatency[c]) && chanCredLatency[c] == old(chanCredLatency[c])
      {
        var latency := 2;
        var outputChannel := EastChannel(n, node, dim);
        EastChannelInRange(n, size, node, dim);
        assert outputChannel == wired + dim;
        routers[node] := routers[node].AddOutputChannel(TorusChannel(outputChannel));
        if useNocLatency {
          chanLatency[outputChannel] := latency;
          chanCredLatency[outputChannel] := latency;
        } else {
          chanLatency[outputChannel] := 1;
          chanCredLatency[outputChannel] := 1;
        }
        dim := dim + 1;
      }
    }

    /** The node's own injection and ejection channels, always latency 1. */
    method BindLocalPorts(node: nat)
      requires Valid() && node < size
      requires routers[node] == Router(RouterNameSpec(k, n, node), node, n + 1, n + 1,
                                       TorusInputs(k, n, node, n), TorusOutputs(n, node, n))
      modifies routers, injectLatency, ejectLatency
      ensures routers[node] == RouterSpec(k, n, node)
      ensures forall j :: 0 <= j < size && j != node ==> routers[j] == old(routers[j])
      ensures forall j :: 0 <= j < size && j != node ==>
                injectLatency[j] == old(injectLatency[j]) && ejectLatency[j] == old(ejectLatency[j])
      ensures injectLatency[node] == 1 && ejectLatency[node] == 1
    {
      routers[node] := routers[node].AddInputChannel(Injection(node));
      routers[node] := routers[node].AddOutputChannel(Ejection(node));
      injectLatency[node] := 1;
      ejectLatency[node] := 1;
    }

    /** The input half of one router's wiring: in dimension 0 the channel its
      * west neighbour drives, in every other dimension the one its north
      * neighbour drives. */
    method BindInputChannels(node: nat)
      requires Valid() && node < size
      requires routers[node] == Router(RouterNameSpec(k, n, node), node, n + 1, n + 1, [], TorusOutputs(n, node, n))
      modifies routers
      ensures routers[node] ==
              Router(RouterNameSpec(k, n, node), node, n + 1, n + 1,
                     TorusInputs(k, n, node, n), TorusOutputs(n, node, n))
      ensures forall j :: 0 <= j < size && j != node ==> routers[j] == old(routers[j])
    {
      var dim := 0;
      while dim < n
        invariant 0 <= dim <= n
        invariant routers[node] ==
                  Router(RouterNameSpec(k, n, node), node, n + 1, n + 1,
                         TorusInputs(k, n, node, dim), TorusOutputs(n, node, n))
        invariant forall j :: 0 <= j < size && j != node ==> routers[j] == old(routers[j])
      {
        var neighborNode;
        if dim == 0 {
          neighborNode := WestNode(k, node, dim);
          WestNodeStep(k, n, node, dim);
        } else {
          neighborNode := NorthNode(k, node, dim);
          NorthNodeIsEast(k, node, dim);
          EastNodeStep(k, n, node, dim);
        }
        var inputChannel := EastChannel(n, neighborNode, dim);
        EastChannelInRange(n, size, neighborNode, dim);
        routers[node] := routers[node].AddInputChannel(TorusChannel(inputChannel));
        dim := dim + 1;
      }
    }
  }
}
