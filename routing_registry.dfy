/**
  The global routing-function registry, as far as the unidirectional torus
  touches it: registration stores the dimension-order routing function of the
  unidirectional torus under its key and leaves every other entry alone.
*/
module RoutingRegistry {
  /** The routing functions a registry entry can name. The torus's own entry
      is the only one this model distinguishes; the body of the routing
      function is not modelled. */
  datatype RoutingFunction = DimOrderUnidirectionalTorus | OtherRoutingFunction(name: string)

  const TorusRoutingKey: string := "dor_unidirectional_torus"

  /** The registry after the torus registers its routing function. */
  function WithTorusRouting(entries: map<string, RoutingFunction>): (r: map<string, RoutingFunction>)
    ensures TorusRoutingKey in r && r[TorusRoutingKey] == DimOrderUnidirectionalTorus
    ensures forall key :: key != TorusRoutingKey ==> (key in r <==> key in entries)
    ensures forall key :: key in entries && key != TorusRoutingKey ==> r[key] == entries[key]
  {
    entries[TorusRoutingKey := DimOrderUnidirectionalTorus]
  }

  /** Registering twice leaves the registry as registering once. */
  lemma RegistrationIdempotent(entries: map<string, RoutingFunction>)
    ensures WithTorusRouting(WithTorusRouting(entries)) == WithTorusRouting(entries)
  {
    var once := WithTorusRouting(entries);
    assert once.Keys == WithTorusRouting(once).Keys;
  }

  /** Registration keeps any entry the registry held for another key,
      whatever it held under the torus key before. */
  lemma RegistrationIgnoresPreviousEntry(entries: map<string, RoutingFunction>, f: RoutingFunction)
    ensures WithTorusRouting(entries[TorusRoutingKey := f]) == WithTorusRouting(entries)
  {
    assert WithTorusRouting(entries[TorusRoutingKey := f]).Keys == WithTorusRouting(entries).Keys;
  }

  /** The process-wide map from routing-function names to functions. */
  class RoutingFunctionMap {
    var entries: map<string, RoutingFunction>

    constructor (initial: map<string, RoutingFunction>)
      ensures entries == initial
    {
      entries := initial;
    }

    /** Registers dimension-order routing for the unidirectional torus. */
    method RegisterRoutingFunctions()
      modifies this
      ensures entries == WithTorusRouting(old(entries))
    {
      entries := entries[TorusRoutingKey := DimOrderUnidirectionalTorus];
    }
  }
}
