/** The identifier and naming helpers of the Flux plugin: inventory id
    parsing, kind pluralisation, the route a custom resource links to, the
    source a Kustomization, HelmRelease or source object points at, and the
    parameters of the custom-resource link. */
module Helpers {
  import opened Wrappers
  import opened Strings
  import opened Kube

  /** A property read on `undefined`, the one error these helpers can raise. */
  datatype Fault = TypeError

  // ---------------------------------------------------------------------
  // Pluralisation

  /** The irregular plurals `getPlural` checks first. */
  const PluralTable: map<string, string> := map[
    "Bucket" := "buckets",
    "GitRepository" := "gitrepositories",
    "HelmRelease" := "helmreleases",
    "HelmRepository" := "helmrepositories",
    "Kustomization" := "kustomizations",
    "OCIRepository" := "ocirepositories"
  ]

  /** `getPlural`: the table value, otherwise the lower-cased kind plus "s".
      Every table value is non-empty, so `table[kind] || …` is the same as a
      membership test. The result never holds an upper-case letter. */
  function GetPlural(kind: string): (r: string)
    ensures kind !in PluralTable ==>
      |r| == |kind| + 1 && r[|kind|] == 's'
      && forall i :: 0 <= i < |kind| ==> r[i] == LowerChar(kind[i])
    ensures NoUpper(r)
  {
    if kind in PluralTable then PluralTable[kind] else ToLower(kind) + "s"
  }

  /** The six irregular kinds get their table plural, a kind outside the
      table the default one. */
  lemma PluralOfFluxKinds()
    ensures GetPlural("Bucket") == "buckets"
    ensures GetPlural("GitRepository") == "gitrepositories"
    ensures GetPlural("HelmRelease") == "helmreleases"
    ensures GetPlural("HelmRepository") == "helmrepositories"
    ensures GetPlural("Kustomization") == "kustomizations"
    ensures GetPlural("OCIRepository") == "ocirepositories"
    ensures GetPlural("Widget") == "widgets"
  {
    assert ToLower("Widget") == "widget";
  }

  // ---------------------------------------------------------------------
  // Inventory ids

  /** The fields of `namespace_name_group_kind`; `None` is `undefined`. */
  datatype ParsedId = ParsedId(
    namespace: Option<string>,
    name: Option<string>,
    group: Option<string>,
    kind: Option<string>)

  /** `seg` is the text of `id` before its first underscore. */
  predicate IsFirstSegment(id: string, seg: string) {
    seg <= id && '_' !in seg && (|seg| == |id| || id[|seg|] == '_')
  }

  function Segment(parts: seq<string>, i: nat): Option<string> {
    if i < |parts| then Some(parts[i]) else None
  }

  /** `parseID`: split on '_'. The namespace is absent exactly when the id
      is empty or starts with '_', and otherwise is the text before the
      first '_'; name, group and kind are present exactly when the id has
      at least one, two and three underscores. */
  function ParseID(id: string): (r: ParsedId)
    ensures r.namespace.None? <==> |id| == 0 || id[0] == '_'
    ensures r.namespace.Some? ==> IsFirstSegment(id, r.namespace.value)
    ensures r.name.Some? <==> Count(id, '_') >= 1
    ensures r.group.Some? <==> Count(id, '_') >= 2
    ensures r.kind.Some? <==> Count(id, '_') >= 3
    ensures r.name.Some? ==> '_' !in r.name.value
    ensures r.group.Some? ==> '_' !in r.group.value
    ensures r.kind.Some? ==> '_' !in r.kind.value
  {
    var parts := Split(id, '_');
    JoinFirst(parts, '_');
    assert |parts[0]| > 0 ==> id[0] == parts[0][0];
    ParsedId(
      if parts[0] == "" then None else Some(parts[0]),
      Segment(parts, 1),
      Segment(parts, 2),
      Segment(parts, 3))
  }

  /** Joining underscore-free segments with '_' parses back to them:
      the first is the namespace (absent when empty), the second, third and
      fourth are name, group and kind, a missing one is absent, and segments
      past the fourth are ignored. Every id is the join of its own segments,
      so this pins `parseID` down on every input. */
  lemma ParseIDOfJoin(parts: seq<string>)
    requires |parts| >= 1
    requires forall i :: 0 <= i < |parts| ==> '_' !in parts[i]
    ensures ParseID(Join(parts, '_'))
         == ParsedId(if parts[0] == "" then None else Some(parts[0]), Segment(parts, 1), Segment(parts, 2), Segment(parts, 3))
  {
    SplitOfJoin(parts, '_');
  }

  /** The round trip: an id built from four underscore-free fields parses
      back to exactly those fields. */
  lemma ParseIDRoundTrip(ns: string, name: string, group: string, kind: string)
    requires '_' !in ns && '_' !in name && '_' !in group && '_' !in kind
    ensures ParseID(ns + "_" + name + "_" + group + "_" + kind)
         == ParsedId(if ns == "" then None else Some(ns), Some(name), Some(group), Some(kind))
  {
    var parts := [ns, name, group, kind];
    assert Join(parts, '_') == ns + "_" + name + "_" + group + "_" + kind by {
      assert parts[1..] == [name, group, kind];
      assert parts[1..][1..] == [group, kind];
      assert parts[1..][1..][1..] == [kind];
      assert Join([group, kind], '_') == group + "_" + kind;
      assert Join([name, group, kind], '_') == name + "_" + (group + "_" + kind);
      assert Join(parts, '_') == ns + "_" + (name + "_" + (group + "_" + kind));
    }
    ParseIDOfJoin(parts);
  }

  // ---------------------------------------------------------------------
  // Routes and links

  /** `getCustomResourceRoute`: "crd" for a missing item, a falsy kind or
      any kind outside the switch; the route is something else exactly
      when the kind is one of the irregular-plural kinds. */
  function GetCustomResourceRoute(item: Option<Obj>): (r: string)
    ensures r in {"crd", "kustomizations", "helmrelease", "source", "bucket"}
    ensures r != "crd" <==> item.Some? && EffectiveKind(item.value).Some? && EffectiveKind(item.value).value in PluralTable
    ensures r == "source" <==> item.Some? && EffectiveKind(item.value) in {Some("OCIRepository"), Some("GitRepository"), Some("HelmRepository")}
    ensures r == "kustomizations" <==> item.Some? && EffectiveKind(item.value) == Some("Kustomization")
    ensures r == "helmrelease" <==> item.Some? && EffectiveKind(item.value) == Some("HelmRelease")
    ensures r == "bucket" <==> item.Some? && EffectiveKind(item.value) == Some("Bucket")
  {
    if item.None? then "crd"
    else
      var kind := EffectiveKind(item.value);
      if !Truthy(kind) then "crd"
      else match kind.value
        case "Kustomization" => "kustomizations"
        case "HelmRelease" => "helmrelease"
        case "OCIRepository" => "source"
        case "GitRepository" => "source"
        case "HelmRepository" => "source"
        case "Bucket" => "bucket"
        case _ => "crd"
  }

  /** HelmChart is a source kind, yet it has no route of its own. */
  lemma HelmChartRoutesToCrd(item: Obj)
    requires EffectiveKind(item) == Some("HelmChart")
    ensures GetCustomResourceRoute(Some(item)) == "crd"
  {
  }

  /** The link a custom-resource row renders, by route. */
  datatype Link =
    | SourceLink(sourceType: string, name: Option<string>, namespace: Option<string>)
    | CustomResourceLink(crd: string, crName: Option<string>, namespace: Option<string>)
    | RouteLink(route: string, linkType: string, name: Option<string>, namespace: Option<string>)

  /** The `crd` parameter of the custom-resource link: the plural of the
      kind, a dot, and the API group. */
  function CrdParam(kind: string, apiName: string): string {
    GetPlural(kind) + "." + apiName
  }

  /** `item?.jsonData?.apiName || ''`. */
  function ApiName(o: Obj): string {
    if o.jsonData.Some? && Truthy(o.jsonData.value.apiName) then o.jsonData.value.apiName.value else ""
  }

  /** `item.jsonData?.metadata?.namespace`. */
  function JsonNamespace(o: Obj): Option<string> {
    if o.jsonData.Some? then o.jsonData.value.metadata.namespace else None
  }

  /** `prepareCustomResourceLink`, without the rendering: no link for a
      missing item or a falsy kind. A source link for the 'source' route, a
      custom-resource link exactly for the kinds outside the irregular
      table, whose `crd` is the kind's plural, a dot and the API name, and a
      link by route name otherwise. Every link names the item by its own
      `metadata.name`; the route link falls back to the record's namespace. */
  function PrepareCustomResourceLink(item: Option<Obj>): (r: Option<Link>)
    ensures r.Some? <==> item.Some? && Truthy(EffectiveKind(item.value))
    ensures r.Some? ==> (r.value.CustomResourceLink? <==> EffectiveKind(item.value).value !in PluralTable)
    ensures r.Some? ==> (r.value.SourceLink? <==> GetCustomResourceRoute(item) == "source")
    ensures r.Some? && r.value.SourceLink? ==>
      r.value.sourceType == GetPlural(EffectiveKind(item.value).value) && r.value.name == item.value.metadata.name
    ensures r.Some? && r.value.CustomResourceLink? ==>
      r.value.crd == CrdParam(EffectiveKind(item.value).value, ApiName(item.value))
      && r.value.crName == item.value.metadata.name
    ensures r.Some? && r.value.RouteLink? ==>
      && r.value.route == GetCustomResourceRoute(item)
      && r.value.linkType == GetPlural(EffectiveKind(item.value).value)
      && r.value.name == item.value.metadata.name
      && r.value.namespace == Or(item.value.metadata.namespace, JsonNamespace(item.value))
    ensures r.Some? && !r.value.RouteLink? ==> r.value.namespace == item.value.metadata.namespace
  {
    if item.None? then None
    else
      var o := item.value;
      var route := GetCustomResourceRoute(item);
      var kind := EffectiveKind(o);
      if !Truthy(kind) then None
      else if route == "source" then
        Some(SourceLink(GetPlural(kind.value), o.metadata.name, o.metadata.namespace))
      else if route == "crd" then
        Some(CustomResourceLink(CrdParam(kind.value, ApiName(o)), o.metadata.name, o.metadata.namespace))
      else
        Some(RouteLink(route, GetPlural(kind.value), o.metadata.name, Or(o.metadata.namespace, JsonNamespace(o))))
  }

  // ---------------------------------------------------------------------
  // Source references

  /** `kindToSourceType`. */
  const KindToSourceType: map<string, string> := map[
    "GitRepository" := "gitrepositories",
    "OCIRepository" := "ocirepositories",
    "Bucket" := "buckets",
    "HelmRepository" := "helmrepositories",
    "HelmChart" := "helmcharts"
  ]

  /** `kindToSourceType[kind] ?? ''`: empty exactly when the kind is absent
      or not a source kind; otherwise the kind's plural. */
  function SourceTypeOf(kind: Option<string>): (r: string)
    ensures r != "" <==> kind.Some? && kind.value in KindToSourceType
    ensures r != "" ==> r == GetPlural(kind.value)
  {
    if kind.Some? && kind.value in KindToSourceType then
      assert ToLower("HelmChart") == "helmchart";
      KindToSourceType[kind.value]
    else ""
  }

  datatype SourceNameAndType = SourceNameAndType(name: Option<string>, sourceType: string)

  /** The HelmRelease reference: `spec?.chartRef ?? spec?.chart?.spec?.sourceRef`. */
  function HelmReleaseRef(spec: Option<Spec>): Option<SourceRef> {
    match spec
    case None => None
    case Some(s) =>
      if s.chartRef.Some? then s.chartRef
      else if s.chart.Some? && s.chart.value.spec.Some? then s.chart.value.spec.value.sourceRef
      else None
  }

  /** `getSourceNameAndType`. It throws exactly when `jsonData` is missing,
      or when a Kustomization lacks `spec` or `spec.sourceRef` (read without
      optional chaining). A kind other than Kustomization and HelmRelease
      names itself: its own `metadata.name` and its own source type. */
  function GetSourceNameAndType(item: Obj): (r: Result<SourceNameAndType, Fault>)
    ensures r.Failure? <==>
      item.jsonData.None?
      || (item.jsonData.value.kind == Some("Kustomization")
          && (item.jsonData.value.spec.None? || item.jsonData.value.spec.value.sourceRef.None?))
    ensures r.Success? && r.value.sourceType != "" ==> r.value.sourceType in KindToSourceType.Values
    ensures item.jsonData.Some? && item.jsonData.value.kind !in {Some("Kustomization"), Some("HelmRelease")} ==>
      r == Success(SourceNameAndType(item.metadata.name, SourceTypeOf(item.jsonData.value.kind)))
  {
    match item.jsonData
    case None => Failure(TypeError)
    case Some(j) =>
      if j.kind == Some("Kustomization") then
        if j.spec.None? || j.spec.value.sourceRef.None? then Failure(TypeError)
        else
          var ref := j.spec.value.sourceRef.value;
          Success(SourceNameAndType(ref.name, SourceTypeOf(ref.kind)))
      else if j.kind == Some("HelmRelease") then
        match HelmReleaseRef(j.spec)
        case Some(ref) => Success(SourceNameAndType(ref.name, SourceTypeOf(ref.kind)))
        case None => Success(SourceNameAndType(Some(""), ""))
      else
        Success(SourceNameAndType(item.metadata.name, SourceTypeOf(j.kind)))
  }

  /** For a HelmRelease, `chartRef` wins over `chart.spec.sourceRef`; the
      latter is used only when `chartRef` is absent; with neither, name and
      type stay empty. */
  lemma HelmReleaseRefPrecedence(item: Obj)
    requires item.jsonData.Some? && item.jsonData.value.kind == Some("HelmRelease")
    ensures var spec := item.jsonData.value.spec;
      && (spec.Some? && spec.value.chartRef.Some? ==>
            GetSourceNameAndType(item) == Success(SourceNameAndType(spec.value.chartRef.value.name, SourceTypeOf(spec.value.chartRef.value.kind))))
      && (spec.Some? && spec.value.chartRef.None? && spec.value.chart.Some? && spec.value.chart.value.spec.Some?
          && spec.value.chart.value.spec.value.sourceRef.Some? ==>
            var ref := spec.value.chart.value.spec.value.sourceRef.value;
            GetSourceNameAndType(item) == Success(SourceNameAndType(ref.name, SourceTypeOf(ref.kind))))
      && (HelmReleaseRef(spec).None? ==> GetSourceNameAndType(item) == Success(SourceNameAndType(Some(""), "")))
  {
  }

  /** A Kustomization with a source reference resolves to that reference's
      name and to the source type of the referenced kind. */
  lemma KustomizationUsesSourceRef(item: Obj, ref: SourceRef)
    requires item.jsonData.Some? && item.jsonData.value.kind == Some("Kustomization")
    requires item.jsonData.value.spec.Some? && item.jsonData.value.spec.value.sourceRef == Some(ref)
    ensures GetSourceNameAndType(item) == Success(SourceNameAndType(ref.name, SourceTypeOf(ref.kind)))
    ensures GetSourceNameAndType(item).value.sourceType == "" <==> ref.kind.None? || ref.kind.value !in KindToSourceType
  {
  }
}
