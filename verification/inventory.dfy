/** The inventory view of a Flux object: every entry of its inventory is
    parsed, fetched as a built-in resource or, through a cached
    CustomResourceDefinition lookup, as a custom resource, and every result
    is merged into the displayed list unless a resource with the same uid is
    already there.

    The network is not modelled. Its replies are arrivals, folded over the
    state in whatever order they come; the set of kinds the dashboard has
    built-in classes for is a parameter. */
module Inventory {
  import opened Wrappers
  import opened Strings
  import opened Kube
  import opened Helpers

  /** One `{ id, v }` entry of an inventory. */
  datatype Entry = Entry(id: string, v: string)

  /** A CustomResourceDefinition as the CRD fetch returns it. */
  datatype Crd = Crd(name: string)

  /** The process-wide CRD cache, keyed by `group/kind`. */
  type Cache = map<string, Crd>

  /** `${group}/${kind}`. */
  function CacheKey(group: Option<string>, kind: Option<string>): string {
    Interpolate(group) + "/" + Interpolate(kind)
  }

  /** `${getPlural(kind)}.${group}`: the same text the custom-resource link
      puts in its `crd` parameter. */
  function CrdName(group: Option<string>, kind: string): string {
    CrdParam(kind, Interpolate(group))
  }

  // ---------------------------------------------------------------------
  // CRD cache

  /** What `getCRDForGroupKind` does before any reply: hand over a cached
      CRD, start a fetch by CRD name, or throw because `getPlural` lower-cases
      an undefined kind. */
  datatype CrdLookup = Cached(crd: Crd) | Fetch(crdName: string) | Throws(fault: Fault)

  /** The synchronous part of `getCRDForGroupKind`: a hit hands over the
      cached value and issues no fetch; a miss fetches the CRD named after
      the kind's plural and the group, and throws when there is no kind. */
  function LookupCrd(cache: Cache, group: Option<string>, kind: Option<string>): (r: CrdLookup)
    ensures r.Cached? <==> CacheKey(group, kind) in cache
    ensures r.Cached? ==> r.crd == cache[CacheKey(group, kind)]
    ensures r.Fetch? ==> kind.Some? && r.crdName == CrdName(group, kind.value)
    ensures r.Throws? <==> CacheKey(group, kind) !in cache && kind.None?
  {
    var key := CacheKey(group, kind);
    if key in cache then Cached(cache[key])
    else match kind
      case None => Throws(TypeError)
      case Some(k) => Fetch(CrdName(group, k))
  }

  /** The CRD fetch's callback: a CRD that was found is stored under the
      key, nothing is stored for one that was not, and the callback of the
      caller receives the reply either way. No other key changes. */
  function CompleteCrdFetch(cache: Cache, key: string, found: Option<Crd>): (r: (Cache, Option<Crd>))
    ensures r.1 == found
    ensures r.0.Keys == cache.Keys + (if found.Some? then {key} else {})
    ensures forall k :: k in cache && k != key ==> r.0[k] == cache[k]
    ensures key in r.0 ==> r.0[key] == (if found.Some? then found.value else cache[key])
  {
    match found
    case Some(crd) => (cache[key := crd], found)
    case None => (cache, None)
  }

  /** After a CRD was found, the next lookup for the same group and kind
      is a hit on it; after "not found", the next lookup fetches again. */
  lemma CacheOnlyRemembersFoundCrds(cache: Cache, group: Option<string>, kind: string, found: Option<Crd>)
    requires CacheKey(group, Some(kind)) !in cache
    ensures var after := CompleteCrdFetch(cache, CacheKey(group, Some(kind)), found).0;
      && (found.Some? ==> LookupCrd(after, group, Some(kind)) == Cached(found.value))
      && (found.None? ==> LookupCrd(after, group, Some(kind)) == Fetch(CrdName(group, kind)))
  {
  }

  // ---------------------------------------------------------------------
  // Dispatch

  /** `K8s.ResourceClasses[kind]` holds a class. A property lookup turns an
      undefined kind into the key "undefined". */
  predicate IsBuiltIn(builtIns: set<string>, kind: Option<string>) {
    Interpolate(kind) in builtIns
  }

  /** A request the loop over the inventory issues. */
  datatype Request =
    | GetBuiltIn(target: ParsedId)
    | GetCrd(crdName: string, target: ParsedId)
    | GetCustom(crd: Crd, target: ParsedId)

  /** One iteration of the loop in `fetchResources`. A built-in kind is
      fetched directly and never looks at the CRD cache; any other kind goes
      through the CRD lookup, which throws for a missing kind on a miss. */
  function PlanEntry(builtIns: set<string>, cache: Cache, entry: Entry): (r: Result<Request, Fault>)
    ensures r.Success? ==> r.value.target == ParseID(entry.id)
    ensures r.Success? ==> (r.value.GetBuiltIn? <==> IsBuiltIn(builtIns, ParseID(entry.id).kind))
    ensures r.Success? && r.value.GetCustom? ==>
      var t := ParseID(entry.id);
      CacheKey(t.group, t.kind) in cache && r.value.crd == cache[CacheKey(t.group, t.kind)]
    ensures r.Success? && r.value.GetCrd? ==>
      var t := ParseID(entry.id);
      CacheKey(t.group, t.kind) !in cache && t.kind.Some? && r.value.crdName == CrdName(t.group, t.kind.value)
    ensures r.Failure? <==>
      var t := ParseID(entry.id);
      !IsBuiltIn(builtIns, t.kind) && CacheKey(t.group, t.kind) !in cache && t.kind.None?
  {
    var t := ParseID(entry.id);
    if IsBuiltIn(builtIns, t.kind) then Success(GetBuiltIn(t))
    else match LookupCrd(cache, t.group, t.kind)
      case Cached(crd) => Success(GetCustom(crd, t))
      case Fetch(name) => Success(GetCrd(name, t))
      case Throws(f) => Failure(f)
  }

  /** Whether a built-in kind takes the direct path does not depend on
      the CRD cache. */
  lemma BuiltInIgnoresCache(builtIns: set<string>, c1: Cache, c2: Cache, entry: Entry)
    requires IsBuiltIn(builtIns, ParseID(entry.id).kind)
    ensures PlanEntry(builtIns, c1, entry) == PlanEntry(builtIns, c2, entry) == Success(GetBuiltIn(ParseID(entry.id)))
  {
  }

  /** What each entry of an inventory plans, in inventory order. */
  function Plans(builtIns: set<string>, cache: Cache, entries: seq<Entry>): (r: seq<Result<Request, Fault>>)
    ensures |r| == |entries|
    ensures forall i :: 0 <= i < |entries| ==> r[i] == PlanEntry(builtIns, cache, entries[i])
  {
    seq(|entries|, i requires 0 <= i < |entries| => PlanEntry(builtIns, cache, entries[i]))
  }

  /** The requests the loop issued before it ended, and whether it ended
      by an exception. */
  datatype Pass = Pass(requests: seq<Request>, aborted: bool)

  /** The loop as written, over the entries' plans: requests go out in
      order, one per entry, until the first entry whose lookup throws; the
      exception escapes the async function and no later entry is
      requested. */
  function IssueUntilFault(plans: seq<Result<Request, Fault>>): (r: Pass)
    ensures |r.requests| <= |plans|
    ensures forall i :: 0 <= i < |r.requests| ==> plans[i] == Success(r.requests[i])
    ensures r.aborted ==> |r.requests| < |plans| && plans[|r.requests|].Failure?
    ensures !r.aborted ==> |r.requests| == |plans|
    decreases |plans|
  {
    if |plans| == 0 then Pass([], false)
    else match plans[0]
      case Failure(_) => Pass([], true)
      case Success(q) =>
        var rest := IssueUntilFault(plans[1..]);
        var r := Pass([q] + rest.requests, rest.aborted);
        assert forall i :: 1 <= i < |r.requests| ==> r.requests[i] == rest.requests[i - 1] && plans[i] == plans[1..][i - 1];
        r
  }

  /** `fetchResources` as written. A missing inventory issues nothing;
      otherwise the requests issued are those of the entries before the
      first one whose lookup throws, or of all entries when none throws. */
  function RequestAll(builtIns: set<string>, cache: Cache, inventory: Option<seq<Entry>>): (r: Pass)
    ensures inventory.None? ==> r == Pass([], false)
    ensures inventory.Some? ==>
      && |r.requests| <= |inventory.value|
      && (forall i :: 0 <= i < |r.requests| ==> PlanEntry(builtIns, cache, inventory.value[i]) == Success(r.requests[i]))
    ensures inventory.Some? && !r.aborted ==> |r.requests| == |inventory.value|
    ensures inventory.Some? && r.aborted ==>
      |r.requests| < |inventory.value| && PlanEntry(builtIns, cache, inventory.value[|r.requests|]).Failure?
    ensures inventory.Some? ==>
      (r.aborted <==> exists i :: 0 <= i < |inventory.value| && PlanEntry(builtIns, cache, inventory.value[i]).Failure?)
  {
    match inventory
    case None => Pass([], false)
    case Some(entries) =>
      var plans := Plans(builtIns, cache, entries);
      var r := IssueUntilFault(plans);
      assert r.aborted ==> plans[|r.requests|].Failure?;
      r
  }

  /** The loop that skips an entry whose lookup throws: the other entries
      still go out, in inventory order. */
  function IssueSkippingFaults(plans: seq<Result<Request, Fault>>): (r: seq<Request>)
    ensures |r| <= |plans|
    ensures forall q :: q in r ==> Success(q) in plans
    ensures forall i :: 0 <= i < |plans| && plans[i].Success? ==> plans[i].value in r
    decreases |plans|
  {
    if |plans| == 0 then []
    else
      var rest := IssueSkippingFaults(plans[1..]);
      assert forall i :: 1 <= i < |plans| ==> plans[i] == plans[1..][i - 1];
      match plans[0]
      case Failure(_) => rest
      case Success(q) => [q] + rest
  }

  /** The corrected `fetchResources`: every request comes from an entry,
      and every entry whose lookup does not throw is requested. */
  function RequestAllSkipping(builtIns: set<string>, cache: Cache, inventory: Option<seq<Entry>>): (r: seq<Request>)
    ensures inventory.None? ==> r == []
    ensures inventory.Some? ==> forall q :: q in r ==>
      exists i :: 0 <= i < |inventory.value| && PlanEntry(builtIns, cache, inventory.value[i]) == Success(q)
    ensures inventory.Some? ==> forall i :: 0 <= i < |inventory.value| && PlanEntry(builtIns, cache, inventory.value[i]).Success? ==>
      PlanEntry(builtIns, cache, inventory.value[i]).value in r
  {
    match inventory
    case None => []
    case Some(entries) =>
      var plans := Plans(builtIns, cache, entries);
      var r := IssueSkippingFaults(plans);
      assert forall q :: q in r ==> exists i :: 0 <= i < |plans| && plans[i] == Success(q);
      r
  }

  /** The corrected loop keeps inventory order: the requests of a longer
      inventory are those of its first part followed by those of the
      rest. */
  lemma {:induction false} SkippingFaultsAppend(a: seq<Result<Request, Fault>>, b: seq<Result<Request, Fault>>)
    ensures IssueSkippingFaults(a + b) == IssueSkippingFaults(a) + IssueSkippingFaults(b)
    decreases |a|
  {
    if |a| == 0 {
      assert a + b == b;
    } else {
      assert (a + b)[0] == a[0];
      assert (a + b)[1..] == a[1..] + b;
      SkippingFaultsAppend(a[1..], b);
    }
  }

  /** A single plan contributes its request when it succeeds, and nothing
      when it throws. */
  lemma SkippingFaultsOne(p: Result<Request, Fault>)
    ensures IssueSkippingFaults([p]) == (if p.Success? then [p.value] else [])
  {
    assert [p][1..] == [];
  }

  /** When no plan throws, the loop as written and the corrected loop
      issue the same requests. */
  lemma {:induction false} NoFaultSameRequests(plans: seq<Result<Request, Fault>>)
    requires forall i :: 0 <= i < |plans| ==> plans[i].Success?
    ensures !IssueUntilFault(plans).aborted
    ensures IssueUntilFault(plans).requests == IssueSkippingFaults(plans)
    decreases |plans|
  {
    if |plans| > 0 {
      assert plans[0].Success?;
      NoFaultSameRequests(plans[1..]);
    }
  }

  /** A kind with a built-in class never takes the CRD path, in either
      version of the loop. */
  lemma BuiltInKindsNeverUseCrds(builtIns: set<string>, cache: Cache, entries: seq<Entry>)
    ensures forall q :: q in RequestAll(builtIns, cache, Some(entries)).requests && !q.GetBuiltIn? ==>
      !IsBuiltIn(builtIns, q.target.kind)
    ensures forall q :: q in RequestAllSkipping(builtIns, cache, Some(entries)) && !q.GetBuiltIn? ==>
      !IsBuiltIn(builtIns, q.target.kind)
  {
  }

  /** The plans of an inventory with one more entry in front. */
  lemma PlansCons(builtIns: set<string>, cache: Cache, e: Entry, later: seq<Entry>)
    ensures Plans(builtIns, cache, [e] + later) == [PlanEntry(builtIns, cache, e)] + Plans(builtIns, cache, later)
  {
    assert forall i :: 1 <= i < |[e] + later| ==> ([e] + later)[i] == later[i - 1];
  }

  /** The fault as written: an entry whose lookup throws aborts the loop
      before any later entry is requested, while the corrected loop goes
      on to request exactly what the later entries alone would. */
  lemma ThrowingEntryBlocksLaterEntries(builtIns: set<string>, cache: Cache, bad: Entry, later: seq<Entry>)
    requires PlanEntry(builtIns, cache, bad).Failure?
    ensures RequestAll(builtIns, cache, Some([bad] + later)) == Pass([], true)
    ensures RequestAllSkipping(builtIns, cache, Some([bad] + later)) == RequestAllSkipping(builtIns, cache, Some(later))
  {
    PlansCons(builtIns, cache, bad, later);
    var plans := Plans(builtIns, cache, [bad] + later);
    assert plans[1..] == Plans(builtIns, cache, later);
  }

  /** An id with fewer than three underscores has no kind. Unless a
      built-in class is named "undefined", its lookup on an empty cache
      throws. */
  lemma KindlessIdThrows(builtIns: set<string>, e: Entry)
    requires Count(e.id, '_') < 3
    requires "undefined" !in builtIns
    ensures PlanEntry(builtIns, map[], e) == Failure(TypeError)
  {
  }

  /** An id in the inventory without a kind segment. */
  const MalformedEntry := Entry("app", "v1")

  /** The API group of the Flux source kinds. */
  const SourceGroup := "source.toolkit.fluxcd.io"

  /** A GitRepository in the default namespace, and the CRD it needs. */
  const GitRepoTarget := ParsedId(Some("default"), Some("myrepo"), Some(SourceGroup), Some("GitRepository"))
  const GitRepoEntry := Entry("default" + "_" + "myrepo" + "_" + SourceGroup + "_" + "GitRepository", "v1")
  const GitRepoCrd := "gitrepositories" + "." + SourceGroup

  lemma ParseGitRepoEntry()
    ensures ParseID(GitRepoEntry.id) == GitRepoTarget
  {
    ParseIDRoundTrip("default", "myrepo", SourceGroup, "GitRepository");
  }

  /** The CRD name of the GitRepository kind. */
  lemma GitRepoCrdName()
    ensures CrdName(Some(SourceGroup), "GitRepository") == GitRepoCrd
  {
    assert GetPlural("GitRepository") == "gitrepositories";
  }

  /** The concrete case: on an empty cache, the id "app" ahead of a
      GitRepository entry aborts the loop, so the GitRepository is never
      requested; the corrected loop requests its CRD. */
  lemma MalformedIdBlocksLaterEntries()
    ensures RequestAll({}, map[], Some([MalformedEntry, GitRepoEntry])) == Pass([], true)
    ensures RequestAllSkipping({}, map[], Some([MalformedEntry, GitRepoEntry])) == [GetCrd(GitRepoCrd, GitRepoTarget)]
  {
    assert Count(MalformedEntry.id, '_') == 0;
    KindlessIdThrows({}, MalformedEntry);
    ThrowingEntryBlocksLaterEntries({}, map[], MalformedEntry, [GitRepoEntry]);
    assert [MalformedEntry] + [GitRepoEntry] == [MalformedEntry, GitRepoEntry];
    GitRepositoryRequestsCrd({});
  }

  // ---------------------------------------------------------------------
  // Merging results

  function Uids(s: seq<Obj>): set<Option<string>> {
    set o | o in s :: o.metadata.uid
  }

  /** No two resources of the list share a uid. */
  predicate UniqueUids(s: seq<Obj>) {
    forall i, j :: 0 <= i < j < |s| ==> s[i].metadata.uid != s[j].metadata.uid
  }

  /** `prev.find(r => r.metadata.uid === data.metadata.uid) ? prev : [...prev, data]`:
      a uid already shown leaves the list alone; a new one is appended at
      the end. The list keeps its old entries as a prefix and its uids stay
      distinct. */
  function Merge(prev: seq<Obj>, data: Obj): (r: seq<Obj>)
    ensures data.metadata.uid in Uids(prev) ==> r == prev
    ensures data.metadata.uid !in Uids(prev) ==> |r| == |prev| + 1 && r[|prev|] == data
    ensures prev <= r
    ensures Uids(r) == Uids(prev) + {data.metadata.uid}
    ensures UniqueUids(prev) ==> UniqueUids(r)
  {
    if exists o :: o in prev && o.metadata.uid == data.metadata.uid then prev
    else
      var r := prev + [data];
      assert forall o :: o in r <==> o in prev || o == data;
      r
  }

  /** Delivering the same resource twice changes nothing the second time. */
  lemma MergeIdempotent(prev: seq<Obj>, data: Obj)
    ensures Merge(Merge(prev, data), data) == Merge(prev, data)
  {
  }

  /** Results merged one after another, in arrival order. The list only
      grows, keeps uids distinct, and its uids are the old ones together
      with the arrivals' ones. */
  function Fold(prev: seq<Obj>, items: seq<Obj>): (r: seq<Obj>)
    ensures prev <= r
    ensures UniqueUids(prev) ==> UniqueUids(r)
    ensures Uids(r) == Uids(prev) + Uids(items)
    decreases |items|
  {
    if |items| == 0 then prev
    else
      assert Uids(items) == {items[0].metadata.uid} + Uids(items[1..]) by {
        assert forall o :: o in items <==> o == items[0] || o in items[1..];
      }
      Fold(Merge(prev, items[0]), items[1..])
  }

  /** Arrival order does not change which uids end up shown. */
  lemma FoldOrderIndependentUids(prev: seq<Obj>, a: seq<Obj>, b: seq<Obj>)
    requires multiset(a) == multiset(b)
    ensures Uids(Fold(prev, a)) == Uids(Fold(prev, b))
  {
    assert forall o :: o in a <==> o in b by {
      forall o ensures o in a <==> o in b {
        assert o in a <==> o in multiset(a);
        assert o in b <==> o in multiset(b);
      }
    }
    assert Uids(a) == Uids(b);
  }

  /** Merging resources whose uids are all shown already changes nothing. */
  lemma {:induction false} FoldOfShownIsNoop(prev: seq<Obj>, items: seq<Obj>)
    requires Uids(items) <= Uids(prev)
    ensures Fold(prev, items) == prev
    decreases |items|
  {
    if |items| > 0 {
      assert items[0] in items;
      assert Uids(items[1..]) <= Uids(items) by {
        assert forall o :: o in items[1..] ==> o in items;
      }
      FoldOfShownIsNoop(prev, items[1..]);
    }
  }

  /** Re-delivering a whole batch, as a re-render would, adds nothing. */
  lemma FoldIdempotent(prev: seq<Obj>, items: seq<Obj>)
    ensures Fold(Fold(prev, items), items) == Fold(prev, items)
  {
    FoldOfShownIsNoop(Fold(prev, items), items);
  }

  /** Resources with the same uid are the same resource. */
  predicate Consistent(s: seq<Obj>) {
    forall x, y :: x in s && y in s && x.metadata.uid == y.metadata.uid ==> x == y
  }

  /** With consistent resources, the list ends up holding exactly the old
      resources and the arrivals. */
  lemma {:induction false} FoldElements(prev: seq<Obj>, items: seq<Obj>)
    requires Consistent(prev + items)
    ensures forall o :: o in Fold(prev, items) <==> o in prev || o in items
    decreases |items|
  {
    if |items| > 0 {
      var next := Merge(prev, items[0]);
      assert forall o :: o in next <==> o in prev || o == items[0] by {
        if items[0].metadata.uid in Uids(prev) {
          var y :| y in prev && y.metadata.uid == items[0].metadata.uid;
          assert items[0] in prev + items && y in prev + items;
        }
      }
      assert forall o :: o in next + items[1..] ==> o in prev + items;
      FoldElements(next, items[1..]);
      assert forall o :: o in items <==> o == items[0] || o in items[1..];
    }
  }

  /** Arrival order does not change which resources end up shown, when
      resources with one uid agree. */
  lemma FoldOrderIndependent(prev: seq<Obj>, a: seq<Obj>, b: seq<Obj>)
    requires multiset(a) == multiset(b)
    requires Consistent(prev + a)
    ensures forall o :: o in Fold(prev, a) <==> o in Fold(prev, b)
  {
    assert forall o :: o in a <==> o in b by {
      forall o ensures o in a <==> o in b {
        assert o in a <==> o in multiset(a);
        assert o in b <==> o in multiset(b);
      }
    }
    assert forall o :: o in prev + a <==> o in prev + b;
    FoldElements(prev, a);
    FoldElements(prev, b);
  }

  // ---------------------------------------------------------------------
  // Custom resources

  /** The record built from a custom-resource payload: name and namespace
      fall back to the inventory id's when the payload's are falsy; the
      JSON record gets the id's kind and the id's group as `apiName`; the
      uid is the payload's. The payload is taken to be the raw JSON record
      of the resource, so its spec and status are carried over as they are. */
  function Normalise(data: Json, target: ParsedId): (r: Obj)
    ensures r.metadata.uid == data.metadata.uid
    ensures r.metadata.name == (if Truthy(data.metadata.name) then data.metadata.name else target.name)
    ensures r.metadata.namespace == (if Truthy(data.metadata.namespace) then data.metadata.namespace else target.namespace)
    ensures r.kind == data.kind
    ensures r.jsonData.Some?
    ensures r.jsonData.value.kind == target.kind && r.jsonData.value.apiName == target.group
    ensures r.jsonData.value.metadata == r.metadata
    ensures r.jsonData.value.spec == data.spec && r.jsonData.value.status == data.status
  {
    var metadata := data.metadata.(
      name := Or(data.metadata.name, target.name),
      namespace := Or(data.metadata.namespace, target.namespace));
    Obj(data.kind, metadata, Some(data.(kind := target.kind, apiName := target.group, metadata := metadata)))
  }

  /** A normalised custom resource shows the inventory id's kind in the
      Kind column. */
  lemma NormalisedKindColumn(data: Json, target: ParsedId)
    requires Truthy(target.kind)
    ensures EffectiveKind(Normalise(data, target)) == target.kind
  {
  }

  /** The link the table renders for a custom resource points at the same
      CRD the inventory fetched for it. */
  lemma CrdLinkMatchesFetchedCrd(data: Json, target: ParsedId, cache: Cache)
    requires Truthy(target.kind) && target.kind.value !in PluralTable
    requires target.group.Some?
    requires CacheKey(target.group, target.kind) !in cache
    ensures var link := PrepareCustomResourceLink(Some(Normalise(data, target)));
      && link.Some? && link.value.CustomResourceLink?
      && LookupCrd(cache, target.group, target.kind) == Fetch(link.value.crd)
  {
  }

  // ---------------------------------------------------------------------
  // Ready column

  /** `conditions.some(c => c.type === t)`. */
  function HasCondition(cs: seq<Condition>, t: string): (b: bool)
    ensures b <==> exists i :: 0 <= i < |cs| && cs[i].condType == t
    decreases |cs|
  {
    if |cs| == 0 then false
    else if cs[0].condType == t then true
    else
      var b := HasCondition(cs[1..], t);
      assert forall i :: 1 <= i < |cs| ==> cs[i] == cs[1..][i - 1];
      b
  }

  /** The conditions the Ready column reads, through optional chaining:
      none when the record, its status or its condition list is missing. */
  function Conditions(item: Obj): seq<Condition> {
    if item.jsonData.Some? && item.jsonData.value.status.Some? && item.jsonData.value.status.value.conditions.Some?
    then item.jsonData.value.status.value.conditions.value
    else []
  }

  /** The Ready column as written: "True" exactly when some condition has
      type Ready, whatever that condition's status says, and "False"
      otherwise, including when the record has no conditions at all. */
  function ReadyColumn(item: Obj): (r: string)
    ensures r == "True" || r == "False"
    ensures r == "True" <==> exists i :: 0 <= i < |Conditions(item)| && Conditions(item)[i].condType == "Ready"
  {
    match item.jsonData
    case None => "False"
    case Some(j) =>
      match j.status
      case None => "False"
      case Some(st) =>
        match st.conditions
        case None => "False"
        case Some(cs) =>
          assert Conditions(item) == cs;
          if HasCondition(cs, "Ready") then "True" else "False"
  }

  /** The Ready column that also checks the condition's status: "True"
      exactly when a condition of type Ready has status "True". */
  function ReadyColumnByStatus(item: Obj): (r: string)
    ensures r == "True" || r == "False"
    ensures r == "True" <==>
      exists i :: 0 <= i < |Conditions(item)| && Conditions(item)[i].condType == "Ready" && Conditions(item)[i].status == "True"
  {
    var cs := Conditions(item);
    if exists i :: 0 <= i < |cs| && cs[i] == Condition("Ready", "True") then "True" else "False"
  }

  /** The corrected column never says "True" where the written one says
      "False". */
  lemma ReadyByStatusImpliesReady(item: Obj)
    ensures ReadyColumnByStatus(item) == "True" ==> ReadyColumn(item) == "True"
  {
  }

  /** A resource whose Ready condition reports "False". */
  const NotReadyItem := Obj(Some("Kustomization"), Metadata(Some("apps"), Some("flux-system"), Some("u1")),
    Some(Json(Some("Kustomization"), None, Metadata(Some("apps"), Some("flux-system"), Some("u1")), None,
      Some(Status(Some([Condition("Ready", "False")]))))))

  /** The written column shows a resource whose Ready condition is "False"
      as ready; the corrected one does not. */
  lemma NotReadyShownAsReady()
    ensures ReadyColumn(NotReadyItem) == "True"
    ensures ReadyColumnByStatus(NotReadyItem) == "False"
  {
    assert Conditions(NotReadyItem) == [Condition("Ready", "False")];
  }

  /** A normalised custom resource's Ready column reads the payload's own
      status, which normalisation passes through. */
  lemma NormalisedReadyColumn(data: Json, target: ParsedId)
    ensures Conditions(Normalise(data, target))
         == (if data.status.Some? && data.status.value.conditions.Some? then data.status.value.conditions.value else [])
    ensures ReadyColumnByStatus(Normalise(data, target)) == "True" <==>
      data.status.Some? && data.status.value.conditions.Some?
      && Condition("Ready", "True") in data.status.value.conditions.value
  {
  }

  // ---------------------------------------------------------------------
  // Arrivals

  /** A reply to one of the requests. */
  datatype Arrival =
    | BuiltInLoaded(target: ParsedId, loaded: Obj)
    | CrdLoaded(target: ParsedId, found: Option<Crd>)
    | CustomLoaded(target: ParsedId, payload: Option<Json>)

  /** The inventory view's state: the shown resources and the CRD cache. */
  datatype State = State(resources: seq<Obj>, cache: Cache)

  /** Handling one reply. Built-in data is merged as it is; a custom
      resource is merged normalised, and a null one is dropped; a CRD reply
      only touches the cache. The dedup test of the source looks at the
      payload's uid, which normalisation keeps. A found CRD is stored
      under its key, replacing what was there; a "not found" reply changes
      nothing. */
  function Step(s: State, a: Arrival): (r: State)
    ensures s.resources <= r.resources
    ensures a.CrdLoaded? ==> r.resources == s.resources
    ensures a.CrdLoaded? && a.found.None? ==> r == s
    ensures a.CrdLoaded? && a.found.Some? ==> r.cache == s.cache[CacheKey(a.target.group, a.target.kind) := a.found.value]
    ensures !a.CrdLoaded? ==> r.cache == s.cache
    ensures a.CustomLoaded? && a.payload.None? ==> r == s
    ensures UniqueUids(s.resources) ==> UniqueUids(r.resources)
  {
    match a
    case BuiltInLoaded(_, data) => s.(resources := Merge(s.resources, data))
    case CrdLoaded(t, found) => s.(cache := CompleteCrdFetch(s.cache, CacheKey(t.group, t.kind), found).0)
    case CustomLoaded(t, data) =>
      match data
      case None => s
      case Some(d) => s.(resources := Merge(s.resources, Normalise(d, t)))
  }

  /** Replies folded in arrival order. */
  function Run(s: State, arrivals: seq<Arrival>): State
    decreases |arrivals|
  {
    if |arrivals| == 0 then s else Run(Step(s, arrivals[0]), arrivals[1..])
  }

  /** The resources the replies offer to the list, in arrival order. */
  function Offered(arrivals: seq<Arrival>): seq<Obj>
    decreases |arrivals|
  {
    if |arrivals| == 0 then []
    else
      var rest := Offered(arrivals[1..]);
      match arrivals[0]
      case BuiltInLoaded(_, data) => [data] + rest
      case CrdLoaded(_, _) => rest
      case CustomLoaded(t, data) => if data.Some? then [Normalise(data.value, t)] + rest else rest
  }

  /** The shown list after any replies is the merge fold of what they
      offered, started from the list already there: nothing clears it when
      the inventory changes. */
  lemma {:induction false} RunResources(s: State, arrivals: seq<Arrival>)
    ensures Run(s, arrivals).resources == Fold(s.resources, Offered(arrivals))
    decreases |arrivals|
  {
    if |arrivals| > 0 {
      RunResources(Step(s, arrivals[0]), arrivals[1..]);
      var rest := Offered(arrivals[1..]);
      match arrivals[0]
      case BuiltInLoaded(_, data) =>
        assert ([data] + rest)[1..] == rest;
      case CrdLoaded(_, _) =>
      case CustomLoaded(t, data) =>
        if data.Some? {
          assert ([Normalise(data.value, t)] + rest)[1..] == rest;
        }
    }
  }

  /** A shown list stays shown and stays free of duplicate uids, and the
      uids shown afterwards are the earlier ones plus the offered ones,
      whatever order the replies came in. */
  lemma ShownResourcesAfterReplies(s: State, arrivals: seq<Arrival>)
    ensures s.resources <= Run(s, arrivals).resources
    ensures UniqueUids(s.resources) ==> UniqueUids(Run(s, arrivals).resources)
    ensures Uids(Run(s, arrivals).resources) == Uids(s.resources) + Uids(Offered(arrivals))
  {
    RunResources(s, arrivals);
  }

  /** The cache keys a run of replies stores: those of found CRDs. */
  function StoredKeys(arrivals: seq<Arrival>): set<string>
    decreases |arrivals|
  {
    if |arrivals| == 0 then {}
    else
      var rest := StoredKeys(arrivals[1..]);
      match arrivals[0]
      case CrdLoaded(t, found) => if found.Some? then {CacheKey(t.group, t.kind)} + rest else rest
      case _ => rest
  }

  /** The cache only grows, and only by the keys of CRDs that were found:
      a "not found" reply is never cached. */
  lemma {:induction false} RunCacheKeys(s: State, arrivals: seq<Arrival>)
    ensures Run(s, arrivals).cache.Keys == s.cache.Keys + StoredKeys(arrivals)
    decreases |arrivals|
  {
    if |arrivals| > 0 {
      RunCacheKeys(Step(s, arrivals[0]), arrivals[1..]);
    }
  }

  /** A cached CRD whose key no reply stores keeps its value: only a found
      CRD overwrites an entry. */
  lemma {:induction false} RunKeepsUnstoredEntries(s: State, arrivals: seq<Arrival>)
    ensures forall k :: k in s.cache && k !in StoredKeys(arrivals) ==>
      k in Run(s, arrivals).cache && Run(s, arrivals).cache[k] == s.cache[k]
    decreases |arrivals|
  {
    if |arrivals| > 0 {
      RunKeepsUnstoredEntries(Step(s, arrivals[0]), arrivals[1..]);
    }
  }

  // ---------------------------------------------------------------------
  // Replies and the requests they answer

  /** A reply answers a request for the same inventory target: a built-in
      fetch, a CRD fetch, or a custom-resource fetch. */
  predicate Answers(a: Arrival, q: Request) {
    && a.target == q.target
    && match a
       case BuiltInLoaded(_, _) => q.GetBuiltIn?
       case CrdLoaded(_, _) => q.GetCrd?
       case CustomLoaded(_, _) => q.GetCustom?
  }

  /** What a reply requests in turn. A CRD that was found makes the
      resource class and fetches the instance by name and namespace; a CRD
      that was not found, and every other reply, requests nothing. */
  function FollowUps(a: Arrival): (r: seq<Request>)
    ensures |r| <= 1
    ensures r != [] <==> a.CrdLoaded? && a.found.Some?
    ensures r != [] ==> r[0] == GetCustom(a.found.value, a.target)
  {
    match a
    case CrdLoaded(t, Some(crd)) => [GetCustom(crd, t)]
    case _ => []
  }

  /** Every request the replies issue, in arrival order. */
  function IssuedBy(arrivals: seq<Arrival>): seq<Request>
    decreases |arrivals|
  {
    if |arrivals| == 0 then []
    else IssuedBy(arrivals[..|arrivals| - 1]) + FollowUps(arrivals[|arrivals| - 1])
  }

  /** Every reply answers a request issued before it, by the loop over the
      inventory or by an earlier reply. */
  predicate Answered(initial: seq<Request>, arrivals: seq<Arrival>) {
    forall i :: 0 <= i < |arrivals| ==>
      exists q :: q in initial + IssuedBy(arrivals[..i]) && Answers(arrivals[i], q)
  }

  /** Replies that found no CRD for `t` request nothing about `t`. */
  lemma {:induction false} IssuedByAvoids(arrivals: seq<Arrival>, t: ParsedId)
    requires forall i :: 0 <= i < |arrivals| && arrivals[i].CrdLoaded? && arrivals[i].target == t ==> arrivals[i].found.None?
    ensures forall q :: q in IssuedBy(arrivals) ==> q.target != t
    decreases |arrivals|
  {
    if |arrivals| > 0 {
      var init := arrivals[..|arrivals| - 1];
      assert forall i :: 0 <= i < |init| ==> init[i] == arrivals[i];
      IssuedByAvoids(init, t);
    }
  }

  /** The replies about targets other than `t`. */
  function Without(arrivals: seq<Arrival>, t: ParsedId): seq<Arrival>
    decreases |arrivals|
  {
    if |arrivals| == 0 then []
    else if arrivals[0].target == t then Without(arrivals[1..], t)
    else [arrivals[0]] + Without(arrivals[1..], t)
  }

  /** CRD replies offer no resource, so leaving out replies that are all
      CRD replies for `t` changes nothing offered. */
  lemma {:induction false} OfferedWithout(arrivals: seq<Arrival>, t: ParsedId)
    requires forall i :: 0 <= i < |arrivals| && arrivals[i].target == t ==> arrivals[i].CrdLoaded?
    ensures Offered(Without(arrivals, t)) == Offered(arrivals)
    decreases |arrivals|
  {
    if |arrivals| > 0 {
      OfferedWithout(arrivals[1..], t);
      var w := Without(arrivals[1..], t);
      if arrivals[0].target != t {
        assert ([arrivals[0]] + w)[0] == arrivals[0];
        assert ([arrivals[0]] + w)[1..] == w;
      }
    }
  }

  /** When the loop asked about `t` only for its CRD and every CRD reply
      for `t` says "not found", every reply about `t` is a CRD reply. */
  lemma NotFoundLeavesOnlyCrdReplies(initial: seq<Request>, arrivals: seq<Arrival>, t: ParsedId)
    requires Answered(initial, arrivals)
    requires forall q :: q in initial && q.target == t ==> q.GetCrd?
    requires forall i :: 0 <= i < |arrivals| && arrivals[i].CrdLoaded? && arrivals[i].target == t ==> arrivals[i].found.None?
    ensures forall i :: 0 <= i < |arrivals| && arrivals[i].target == t ==> arrivals[i].CrdLoaded?
  {
    forall i | 0 <= i < |arrivals| && arrivals[i].target == t
      ensures arrivals[i].CrdLoaded?
    {
      var prefix := arrivals[..i];
      assert forall j :: 0 <= j < |prefix| ==> prefix[j] == arrivals[j];
      IssuedByAvoids(prefix, t);
      var q :| q in initial + IssuedBy(prefix) && Answers(arrivals[i], q);
    }
  }

  /** A CRD that is not found drops its entry: under the same conditions,
      the shown list ends up as if no reply about `t` had come. */
  lemma NotFoundDropsEntry(s: State, initial: seq<Request>, arrivals: seq<Arrival>, t: ParsedId)
    requires Answered(initial, arrivals)
    requires forall q :: q in initial && q.target == t ==> q.GetCrd?
    requires forall i :: 0 <= i < |arrivals| && arrivals[i].CrdLoaded? && arrivals[i].target == t ==> arrivals[i].found.None?
    ensures Run(s, arrivals).resources == Run(s, Without(arrivals, t)).resources
  {
    NotFoundLeavesOnlyCrdReplies(initial, arrivals, t);
    OfferedWithout(arrivals, t);
    RunResources(s, arrivals);
    RunResources(s, Without(arrivals, t));
  }

  /** The scenario of a GitRepository in the inventory, first half: with
      no built-in GitRepository class and an empty cache, the loop requests
      its CRD. */
  lemma GitRepositoryRequestsCrd(builtIns: set<string>)
    requires "GitRepository" !in builtIns
    ensures RequestAll(builtIns, map[], Some([GitRepoEntry])) == Pass([GetCrd(GitRepoCrd, GitRepoTarget)], false)
    ensures RequestAllSkipping(builtIns, map[], Some([GitRepoEntry])) == [GetCrd(GitRepoCrd, GitRepoTarget)]
  {
    var plans := Plans(builtIns, map[], [GitRepoEntry]);
    assert plans == [Success(GetCrd(GitRepoCrd, GitRepoTarget))] by {
      GitRepoPlan(builtIns);
    }
    assert plans[1..] == [];
  }

  /** Without a built-in class, the GitRepository entry asks for its CRD
      by name on a cache miss. */
  lemma GitRepoPlan(builtIns: set<string>)
    requires "GitRepository" !in builtIns
    ensures PlanEntry(builtIns, map[], GitRepoEntry) == Success(GetCrd(GitRepoCrd, GitRepoTarget))
  {
    ParseGitRepoEntry();
    GitRepoCrdName();
    GitRepoCacheKey();
  }

  /** Second half: once the CRD and the resource arrive, the list holds the
      one resource, of kind GitRepository in group source.toolkit.fluxcd.io
      and namespace default, and the CRD is cached under its group and
      kind. */
  lemma GitRepositoryArrives(crd: Crd, uid: string)
    ensures var payload := Json(None, None, Metadata(Some("myrepo"), Some("default"), Some(uid)), None, None);
      var after := Run(State([], map[]), [CrdLoaded(GitRepoTarget, Some(crd)), CustomLoaded(GitRepoTarget, Some(payload))]);
      && after.cache == map[SourceGroup + "/" + "GitRepository" := crd]
      && |after.resources| == 1
      && EffectiveKind(after.resources[0]) == Some("GitRepository")
      && after.resources[0].jsonData == Some(Json(Some("GitRepository"), Some(SourceGroup), after.resources[0].metadata, None, None))
      && after.resources[0].metadata.namespace == Some("default")
  {
    var payload := Json(None, None, Metadata(Some("myrepo"), Some("default"), Some(uid)), None, None);
    var arrivals := [CrdLoaded(GitRepoTarget, Some(crd)), CustomLoaded(GitRepoTarget, Some(payload))];
    GitRepoCacheKey();
    var s1 := Step(State([], map[]), arrivals[0]);
    assert s1 == State([], map[SourceGroup + "/" + "GitRepository" := crd]);
    var s2 := Step(s1, arrivals[1]);
    assert s2.resources == [Normalise(payload, GitRepoTarget)];
    assert arrivals[1..][1..] == [];
    assert Run(State([], map[]), arrivals) == Run(s2, []);
  }

  lemma GitRepoCacheKey()
    ensures CacheKey(GitRepoTarget.group, GitRepoTarget.kind) == SourceGroup + "/" + "GitRepository"
  {
  }

  /** A CRD that is not found leaves both the list and the cache empty,
      and no resource reply for the GitRepository can follow it. */
  lemma CrdNotFoundScenario(d: Json)
    ensures Run(State([], map[]), [CrdLoaded(GitRepoTarget, None)]) == State([], map[])
    ensures !Answered([GetCrd(GitRepoCrd, GitRepoTarget)], [CrdLoaded(GitRepoTarget, None), CustomLoaded(GitRepoTarget, Some(d))])
  {
    var arrivals := [CrdLoaded(GitRepoTarget, None), CustomLoaded(GitRepoTarget, Some(d))];
    assert arrivals[..1] == [arrivals[0]];
    assert IssuedBy(arrivals[..1]) == [] by {
      assert arrivals[..1][..0] == [];
    }
    assert forall q :: q in [GetCrd(GitRepoCrd, GitRepoTarget)] + IssuedBy(arrivals[..1]) ==> !Answers(arrivals[1], q);
  }

  /** The two replies of the GitRepository scenario each answer a request:
      the CRD reply the loop's CRD fetch, the resource reply the fetch the
      found CRD issued. */
  lemma GitRepositoryRepliesAnswered(crd: Crd, payload: Json)
    ensures Answered([GetCrd(GitRepoCrd, GitRepoTarget)], [CrdLoaded(GitRepoTarget, Some(crd)), CustomLoaded(GitRepoTarget, Some(payload))])
  {
    var arrivals := [CrdLoaded(GitRepoTarget, Some(crd)), CustomLoaded(GitRepoTarget, Some(payload))];
    var initial := [GetCrd(GitRepoCrd, GitRepoTarget)];
    assert Answers(arrivals[0], initial[0]);
    assert arrivals[..1] == [arrivals[0]];
    assert IssuedBy(arrivals[..1]) == [GetCustom(crd, GitRepoTarget)] by {
      assert arrivals[..1][..0] == [];
    }
    assert Answers(arrivals[1], GetCustom(crd, GitRepoTarget));
    assert (initial + IssuedBy(arrivals[..1]))[1] == GetCustom(crd, GitRepoTarget);
  }
}
