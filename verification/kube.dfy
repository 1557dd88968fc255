/** The Kubernetes object records the plugin reads, reduced to the fields it
    touches, together with the JavaScript value rules its expressions use:
    truthiness of a possibly-undefined string, `a || b`, and the text a
    template literal gives for an undefined value. */
module Kube {
  import opened Wrappers

  /** A string-valued field read through `!!v`: absent and empty are falsy. */
  predicate Truthy(v: Option<string>) {
    v.Some? && v.value != ""
  }

  /** `a || b` on two possibly-undefined strings. */
  function Or(a: Option<string>, b: Option<string>): Option<string> {
    if Truthy(a) then a else b
  }

  /** What `${v}` renders: the string itself, or "undefined". */
  function Interpolate(v: Option<string>): string {
    match v
    case Some(s) => s
    case None => "undefined"
  }

  datatype Metadata = Metadata(name: Option<string>, namespace: Option<string>, uid: Option<string>)

  /** `spec.sourceRef`, `spec.chartRef` and `spec.chart.spec.sourceRef`. */
  datatype SourceRef = SourceRef(kind: Option<string>, name: Option<string>)
  datatype ChartSpec = ChartSpec(sourceRef: Option<SourceRef>)
  datatype Chart = Chart(spec: Option<ChartSpec>)
  datatype Spec = Spec(sourceRef: Option<SourceRef>, chartRef: Option<SourceRef>, chart: Option<Chart>)

  datatype Condition = Condition(condType: string, status: string)
  datatype Status = Status(conditions: Option<seq<Condition>>)

  /** The resource's JSON record. `apiName` is not part of Kubernetes JSON;
      the inventory view injects it into custom resources. */
  datatype Json = Json(
    kind: Option<string>,
    apiName: Option<string>,
    metadata: Metadata,
    spec: Option<Spec>,
    status: Option<Status>)

  /** A resource as the tables receive it: a top-level kind and metadata,
      and the JSON record under `jsonData`. */
  datatype Obj = Obj(kind: Option<string>, metadata: Metadata, jsonData: Option<Json>)

  /** `item.jsonData?.kind || item.kind`: the kind the Kind column shows and
      the route and link helpers dispatch on. */
  function EffectiveKind(o: Obj): (r: Option<string>)
    ensures o.jsonData.Some? && Truthy(o.jsonData.value.kind) ==> r == o.jsonData.value.kind
    ensures !(o.jsonData.Some? && Truthy(o.jsonData.value.kind)) ==> r == o.kind
    ensures Truthy(r) ==> r == o.kind || (o.jsonData.Some? && r == o.jsonData.value.kind)
  {
    match o.jsonData
    case Some(j) => Or(j.kind, o.kind)
    case None => o.kind
  }
}
