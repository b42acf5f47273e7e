/**
  The parameter maps `ExecuteSQL` sends with a query: for every parameter
  name, its declared type (`ParamTypes`) and its value (`Params`, before
  JSON encoding).
 */
module Params {
  import opened Types

  /** `spanner.Type`: a type code and, for arrays, the element type. */
  datatype SpannerType = SpannerType(code: string, arrayElementType: Option<SpannerType>)

  /** `Param`; the value is dynamically typed in the source, a type parameter here. */
  datatype Param<V> = Param(name: string, value: V, typ: string, arrayElementType: string)

  /** No later parameter carries the same name as `params[i]`. */
  predicate IsLastNamed<V>(params: seq<Param<V>>, i: int)
    requires 0 <= i < |params|
  {
    forall j :: i < j < |params| ==> params[j].name != params[i].name
  }

  /** The type entry of one parameter. */
  function TypeOf<V>(p: Param<V>): SpannerType {
    SpannerType(p.typ, if p.arrayElementType != "" then Some(SpannerType(p.arrayElementType, None)) else None)
  }

  /** The loop of `ExecuteSQL` that fills `pTypes` and `pVals`. */
  method BuildParams<V>(params: seq<Param<V>>)
    returns (pTypes: map<string, SpannerType>, pVals: map<string, V>)
    ensures pTypes.Keys == pVals.Keys == set i | 0 <= i < |params| :: params[i].name
    ensures forall i :: 0 <= i < |params| && IsLastNamed(params, i) ==>
              && pTypes[params[i].name].code == params[i].typ
              && (pTypes[params[i].name].arrayElementType.Some? <==> params[i].arrayElementType != "")
              && (pTypes[params[i].name].arrayElementType.Some? ==>
                    pTypes[params[i].name].arrayElementType.value == SpannerType(params[i].arrayElementType, None))
              && pVals[params[i].name] == params[i].value
  {
    pTypes, pVals := map[], map[];
    var n := 0;
    while n < |params|
      invariant 0 <= n <= |params|
      invariant pTypes.Keys == pVals.Keys == set i | 0 <= i < n :: params[i].name
      invariant forall i :: 0 <= i < n && (forall j :: i < j < n ==> params[j].name != params[i].name) ==>
                  pTypes[params[i].name] == TypeOf(params[i]) && pVals[params[i].name] == params[i].value
    {
      var p := params[n];
      pTypes := pTypes[p.name := TypeOf(p)];
      pVals := pVals[p.name := p.value];
      n := n + 1;
    }
  }
}
