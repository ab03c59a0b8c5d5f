/**
  Address functions of the unidirectional k-ary n-cube.

  Nodes are numbered in mixed radix k (see MixedRadix); every node owns one
  outbound channel per dimension, numbered `n * node + dim`. The neighbour
  functions replace one coordinate of a node number, wrapping around at the
  edge of the ring. They take `k` and `n` explicitly: in the simulator they
  read the network's own `_k` and `_n`.
*/
module TorusAddress {
  import opened MixedRadix

  /** The channel on which `node` sends along dimension `dim`. */
  function EastChannel(n: int, node: int, dim: int): int
  {
    n * node + dim
  }

  /** The "south" channel: the same numbering, with a separate branch for
      dimension 1 that computes the same expression. */
  function SouthChannel(n: int, node: int, dim: int): int
  {
    if dim == 1 then n * node + dim else EastChannel(n, node, dim)
  }

  /** One step forward along `dim`, from coordinate k-1 back to 0. */
  function EastNode(k: nat, node: nat, dim: nat): int
    requires k >= 1
  {
    var kToDim := Pow(k, dim);
    var locInDim := (node / kToDim) % k;
    if locInDim == k - 1 then node - (k - 1) * kToDim else node + kToDim
  }

  /** One step backward along `dim`, from coordinate 0 round to k-1. */
  function SouthNode(k: nat, node: nat, dim: nat): int
    requires k >= 1
  {
    var kToDim := Pow(k, dim);
    var locInDim := (node / kToDim) % k;
    if locInDim == 0 then node + (k - 1) * kToDim else node - kToDim
  }

  /** One step backward along `dim`, from coordinate 0 round to k-1. */
  function WestNode(k: nat, node: nat, dim: nat): int
    requires k >= 1
  {
    var kToDim := Pow(k, dim);
    var locInDim := (node / kToDim) % k;
    if locInDim == 0 then node + (k - 1) * kToDim else node - kToDim
  }

  /** One step forward along `dim`, from coordinate k-1 back to 0. */
  function NorthNode(k: nat, node: nat, dim: nat): int
    requires k >= 1
  {
    var kToDim := Pow(k, dim);
    var locInDim := (node / kToDim) % k;
    if locInDim == k - 1 then node - (k - 1) * kToDim else node + kToDim
  }

  // ---------------------------------------------------------------------------
  // Channel numbering

  /** A channel number decodes back to its owner and dimension. */
  lemma EastChannelDecode(n: nat, node: nat, dim: nat)
    requires dim < n
    ensures EastChannel(n, node, dim) / n == node
    ensures EastChannel(n, node, dim) % n == dim
  {
    DivModUnique(EastChannel(n, node, dim), n, node, dim);
  }

  /** A channel number is the channel of (node, dim) exactly when it decodes
      to that pair. */
  lemma EastChannelIff(n: nat, node: nat, dim: nat, c: int)
    requires dim < n
    ensures c == EastChannel(n, node, dim) <==> c >= 0 && c / n == node && c % n == dim
  {
    EastChannelDecode(n, node, dim);
    DivMod(c, n);
  }

  /** Distinct (node, dim) pairs get distinct channel numbers. */
  lemma EastChannelInjective(n: nat, node: nat, dim: nat, node': nat, dim': nat)
    requires dim < n && dim' < n
    requires EastChannel(n, node, dim) == EastChannel(n, node', dim')
    ensures node == node' && dim == dim'
  {
    EastChannelDecode(n, node, dim);
    EastChannelDecode(n, node', dim');
  }

  /** The channels of the nodes below `size` lie in [0, n * size). */
  lemma EastChannelInRange(n: nat, size: nat, node: nat, dim: nat)
    requires node < size && dim < n
    ensures 0 <= EastChannel(n, node, dim) < n * size
  {
    MulMonotone(n, node, size - 1);
  }

  /** Every number in [0, n * size) is the channel of some node below `size`. */
  lemma EastChannelOnto(n: nat, size: nat, c: nat)
    requires c < n * size
    ensures n >= 1 && c / n < size && c % n < n
    ensures EastChannel(n, c / n, c % n) == c
  {
    if c / n >= size {
      MulMonotone(n, size, c / n);
    }
  }

  lemma SouthChannelIsEast(n: int, node: int, dim: int)
    ensures SouthChannel(n, node, dim) == EastChannel(n, node, dim)
  {
  }

  // ---------------------------------------------------------------------------
  // Neighbours

  /** One step forward at place value p, on plain integers. */
  lemma IntEastStep(x: nat, p: int, k: int)
    requires p > 0 && k > 0
    ensures (if (x / p) % k == k - 1 then x - (k - 1) * p else x + p) ==
            x % p + p * (((x / p) % k + 1) % k + k * (x / (p * k)))
  {
    var lo: int, c: int, hi: int := x % p, (x / p) % k, x / (p * k);
    IntSplit(x, p, k);
    if c == k - 1 {
      DivModUnique(c + 1, k, 1, 0);
      IntShift(lo, p, c, 0, k, hi);
      assert (0 - c) * p == -((k - 1) * p);
    } else {
      DivModUnique(c + 1, k, 0, c + 1);
      IntShift(lo, p, c, c + 1, k, hi);
    }
  }

  /** One step backward at place value p, on plain integers. */
  lemma IntWestStep(x: nat, p: int, k: int)
    requires p > 0 && k > 0
    ensures (if (x / p) % k == 0 then x + (k - 1) * p else x - p) ==
            x % p + p * (((x / p) % k + k - 1) % k + k * (x / (p * k)))
  {
    var lo: int, c: int, hi: int := x % p, (x / p) % k, x / (p * k);
    IntSplit(x, p, k);
    if c == 0 {
      DivModUnique(c + k - 1, k, 0, k - 1);
      IntShift(lo, p, c, k - 1, k, hi);
    } else {
      DivModUnique(c + k - 1, k, 1, c - 1);
      IntShift(lo, p, c, c - 1, k, hi);
      assert ((c - 1) - c) * p == -p;
    }
  }

  /** EastNode replaces the coordinate c at `dim` by (c + 1) % k. */
  lemma EastNodeCompose(k: nat, node: nat, dim: nat)
    requires k >= 1
    ensures EastNode(k, node, dim) ==
            Compose(k, dim, node % Pow(k, dim), (Coord(k, node, dim) + 1) % k, node / (Pow(k, dim) * k))
  {
    IntEastStep(node, Pow(k, dim), k);
  }

  /** WestNode replaces the coordinate c at `dim` by (c + k - 1) % k. */
  lemma WestNodeCompose(k: nat, node: nat, dim: nat)
    requires k >= 1
    ensures WestNode(k, node, dim) ==
            Compose(k, dim, node % Pow(k, dim), (Coord(k, node, dim) + k - 1) % k, node / (Pow(k, dim) * k))
  {
    IntWestStep(node, Pow(k, dim), k);
  }
  /** Stepping forward then backward (or backward then forward) on the same
      digit gives the digit back. */
  lemma DigitStepsCancel(c: int, k: int)
    requires 0 <= c < k
    ensures ((c + k - 1) % k + 1) % k == c
    ensures ((c + 1) % k + k - 1) % k == c
  {
    if c == 0 {
      DivModUnique(c + k - 1, k, 0, k - 1);
      DivModUnique(k, k, 1, 0);
    } else {
      DivModUnique(c + k - 1, k, 1, c - 1);
      DivModUnique(c, k, 0, c);
    }
    if c == k - 1 {
      DivModUnique(c + 1, k, 1, 0);
      DivModUnique(k - 1, k, 0, k - 1);
    } else {
      DivModUnique(c + 1, k, 0, c + 1);
      DivModUnique(c + k, k, 1, c);
    }
  }

  /** EastNode stays inside the torus, advances coordinate `dim` by one modulo
      k and leaves every other coordinate as it was. */
  lemma EastNodeStep(k: nat, n: nat, node: nat, dim: nat)
    requires k >= 1 && node < Pow(k, n) && dim < n
    ensures 0 <= EastNode(k, node, dim) < Pow(k, n)
    ensures Coord(k, EastNode(k, node, dim), dim) == (Coord(k, node, dim) + 1) % k
    ensures forall e :: e != dim ==> Coord(k, EastNode(k, node, dim), e) == Coord(k, node, e)
  {
    var p := Pow(k, dim);
    var c' := (Coord(k, node, dim) + 1) % k;
    assert 0 <= EastNode(k, node, dim) < Pow(k, n) by {
      EastNodeCompose(k, node, dim);
      ReplaceInRange(k, n, node, dim, c');
    }
    EastNodeCoord(k, node, dim);
    forall e | e != dim
      ensures Coord(k, EastNode(k, node, dim), e) == Coord(k, node, e)
    {
      EastNodeCompose(k, node, dim);
      ReplaceKeepsOthers(k, node, dim, c');
    }
  }

  /** WestNode stays inside the torus, moves coordinate `dim` back by one
      modulo k and leaves every other coordinate as it was. */
  lemma WestNodeStep(k: nat, n: nat, node: nat, dim: nat)
    requires k >= 1 && node < Pow(k, n) && dim < n
    ensures 0 <= WestNode(k, node, dim) < Pow(k, n)
    ensures Coord(k, WestNode(k, node, dim), dim) == (Coord(k, node, dim) + k - 1) % k
    ensures forall e :: e != dim ==> Coord(k, WestNode(k, node, dim), e) == Coord(k, node, e)
  {
    var p := Pow(k, dim);
    var c' := (Coord(k, node, dim) + k - 1) % k;
    assert 0 <= WestNode(k, node, dim) < Pow(k, n) by {
      WestNodeCompose(k, node, dim);
      ReplaceInRange(k, n, node, dim, c');
    }
    WestNodeCoord(k, node, dim);
    forall e | e != dim
      ensures Coord(k, WestNode(k, node, dim), e) == Coord(k, node, e)
    {
      WestNodeCompose(k, node, dim);
      ReplaceKeepsOthers(k, node, dim, c');
    }
  }

  /** The forward and backward steps along one dimension undo each other:
      every ring is consistent. */
  lemma EastWestInverse(k: nat, node: nat, dim: nat)
    requires k >= 1
    ensures WestNode(k, node, dim) >= 0 && EastNode(k, WestNode(k, node, dim), dim) == node
    ensures EastNode(k, node, dim) >= 0 && WestNode(k, EastNode(k, node, dim), dim) == node
  {
    var p := Pow(k, dim);
    var lo, c, hi := node % p, Coord(k, node, dim), node / (p * k);
    ModBelow(node, p);
    DigitStepsCancel(c, k);
    Decompose(k, dim, node);
    var w := Compose(k, dim, lo, (c + k - 1) % k, hi);
    WestNodeCompose(k, node, dim);
    ComposeParts(k, dim, lo, (c + k - 1) % k, hi);
    EastNodeCompose(k, w, dim);
    var e := Compose(k, dim, lo, (c + 1) % k, hi);
    EastNodeCompose(k, node, dim);
    ComposeParts(k, dim, lo, (c + 1) % k, hi);
    WestNodeCompose(k, e, dim);
  }

  /** With k = 1 every ring has one node and both steps are self-loops. */
  lemma SingleNodeRings(node: nat, dim: nat)
    ensures EastNode(1, node, dim) == node
    ensures WestNode(1, node, dim) == node
  {
    DivModUnique(node / Pow(1, dim), 1, node / Pow(1, dim), 0);
  }

  /** With k > 1 a step changes the digit it is applied to. */
  lemma DigitStepMoves(c: int, k: int)
    requires 0 <= c < k && k > 1
    ensures (c + 1) % k != c
    ensures (c + k - 1) % k != c
  {
    if c == k - 1 {
      DivModUnique(c + 1, k, 1, 0);
    } else {
      DivModUnique(c + 1, k, 0, c + 1);
    }
    if c == 0 {
      DivModUnique(c + k - 1, k, 0, k - 1);
    } else {
      DivModUnique(c + k - 1, k, 1, c - 1);
    }
  }

  /** The forward step sets the coordinate at `dim` to (c + 1) % k. */
  lemma EastNodeCoord(k: nat, node: nat, dim: nat)
    requires k >= 1
    ensures EastNode(k, node, dim) >= 0
    ensures Coord(k, EastNode(k, node, dim), dim) == (Coord(k, node, dim) + 1) % k
  {
    var p := Pow(k, dim);
    var c' := (Coord(k, node, dim) + 1) % k;
    var e := Compose(k, dim, node % p, c', node / (p * k));
    assert EastNode(k, node, dim) == e by {
      EastNodeCompose(k, node, dim);
    }
    assert Coord(k, e, dim) == c' by {
      ModBelow(node, p);
      ComposeParts(k, dim, node % p, c', node / (p * k));
    }
  }

  /** The backward step sets the coordinate at `dim` to (c + k - 1) % k. */
  lemma WestNodeCoord(k: nat, node: nat, dim: nat)
    requires k >= 1
    ensures WestNode(k, node, dim) >= 0
    ensures Coord(k, WestNode(k, node, dim), dim) == (Coord(k, node, dim) + k - 1) % k
  {
    var p := Pow(k, dim);
    var c' := (Coord(k, node, dim) + k - 1) % k;
    var w := Compose(k, dim, node % p, c', node / (p * k));
    assert WestNode(k, node, dim) == w by {
      WestNodeCompose(k, node, dim);
    }
    assert Coord(k, w, dim) == c' by {
      ModBelow(node, p);
      ComposeParts(k, dim, node % p, c', node / (p * k));
    }
  }

  /** With k > 1 neither step returns to the node it started from. */
  lemma StepsLeaveNode(k: nat, node: nat, dim: nat)
    requires k > 1
    ensures EastNode(k, node, dim) != node
    ensures WestNode(k, node, dim) != node
  {
    EastNodeCoord(k, node, dim);
    WestNodeCoord(k, node, dim);
    DigitStepMoves(Coord(k, node, dim), k);
  }

  /** NorthNode computes the same node as EastNode. */
  lemma NorthNodeIsEast(k: nat, node: nat, dim: nat)
    requires k >= 1
    ensures NorthNode(k, node, dim) == EastNode(k, node, dim)
  {
  }

  /** SouthNode computes the same node as WestNode. */
  lemma SouthNodeIsWest(k: nat, node: nat, dim: nat)
    requires k >= 1
    ensures SouthNode(k, node, dim) == WestNode(k, node, dim)
  {
  }
}
