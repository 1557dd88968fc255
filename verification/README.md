# Flux inventory resolution, modelled in Dafny

This project models the pure logic of the Flux plugin for the Headlamp
Kubernetes dashboard. The plugin shows which resources a Kustomization or
HelmRelease owns. Each Flux object carries an *inventory*, a list of ids
of the form `namespace_name_group_kind`. For every id, the plugin:

1. parses the id;
2. fetches the resource, either through a built-in resource class or
   through its CustomResourceDefinition (CRD). CRD lookups go through a
   process-wide cache keyed by `group/kind`;
3. normalises a custom-resource payload;
4. merges the result into the displayed list unless a resource with the
   same uid is already shown.

The table then derives its Name link, Kind column and Ready column from
each shown record.

The modules follow the two source files:

- `wrappers.dfy`, module `Wrappers`: `Option` and `Result`.
- `strings.dfy`, module `Strings`: `split`/`join` on one separator
  character and ASCII `toLowerCase`.
- `kube.dfy`, module `Kube`: the object records the plugin reads, and
  the JavaScript value rules its expressions rely on. These are truthiness,
  `a || b`, and the text `${undefined}` produces.
- `helpers.dfy`, module `Helpers`: `parseID`, `getPlural`,
  `getCustomResourceRoute`, the link built by `prepareCustomResourceLink`,
  `kindToSourceType` and `getSourceNameAndType`.
- `duration.dfy`, module `Duration`: `parseDuration`. The method follows
  the source's `regex.exec` loop. It is proved equal to a reference
  left-to-right reading of the text.
- `inventory.dfy`, module `Inventory`, which holds:
  - the CRD cache (`getCRDForGroupKind`);
  - the built-in/CRD dispatch of the fetch loop;
  - the uid-dedup merge and its fold over replies;
  - custom-resource normalisation;
  - the Kind and Ready columns.

The network is not modelled. Its replies are a sequence of *arrivals*
folded over a state, which holds the shown list and the CRD cache, in any
order. The set of kinds that have built-in classes is a parameter.

In three places the code does something other than what its structure
suggests; the model follows the code:

- Nothing clears the shown list when the inventory changes, so the fold
  starts from whatever list is already there (`Inventory.RunResources`).
- A CRD that is not found is never cached. The next lookup fetches again
  (`Inventory.CacheOnlyRemembersFoundCrds`, `Inventory.RunCacheKeys`).
- An inventory entry that cannot be resolved is not simply dropped. An id
  without a kind segment stops the whole loop (see Findings).

## Model

| member | source | states |
|---|---|---|
| Strings.Split | flux/src/helpers/index.tsx:219 | `split('_')` gives one more segment than there are separators. No segment contains the separator, and joining the segments restores the id. |
| Strings.SplitOfJoin | flux/src/helpers/index.tsx:219 | Splitting a join of separator-free segments gives back exactly those segments. |
| Kube.EffectiveKind | flux/src/inventory/index.tsx:138 | The Kind column is `jsonData.kind` when that is a non-empty string, and the top-level `kind` otherwise. |
| Helpers.GetPlural | flux/src/helpers/index.tsx:204-215 | A kind outside the irregular table becomes its lower-cased self plus "s": length one more, the last character 's'. No plural contains an upper-case letter. |
| Helpers.PluralOfFluxKinds | flux/src/helpers/index.tsx:205-214 | The six irregular kinds get their table plurals. Another kind, e.g. "Widget", gets "widgets". |
| Helpers.ParseID | flux/src/helpers/index.tsx:218-226 | The namespace is absent exactly when the first segment is empty, and otherwise is the text before the first '_'. Name, group and kind are present exactly when the id has at least 1, 2 or 3 underscores, and none of them contains '_'. |
| Helpers.ParseIDOfJoin | flux/src/helpers/index.tsx:218-226 | For any number of underscore-free segments, the joined id parses to its first four segments as namespace, name, group and kind. Missing segments come back absent, later ones are ignored, and an empty first segment gives no namespace. Every id is such a join. |
| Helpers.ParseIDRoundTrip | flux/src/helpers/index.tsx:218-226 | An id built from four underscore-free fields parses back to exactly those fields. An empty namespace field parses to an absent namespace. |
| Helpers.GetCustomResourceRoute | flux/src/helpers/index.tsx:229-249 | The route is one of five names. It is other than 'crd' exactly when the item and its kind are present and the kind is one of the six switch kinds. It is 'source' exactly for OCIRepository, GitRepository and HelmRepository. It is 'kustomizations', 'helmrelease' and 'bucket' exactly for Kustomization, HelmRelease and Bucket. |
| Helpers.HelmChartRoutesToCrd | flux/src/helpers/index.tsx:235-247 | HelmChart falls to the default case, 'crd'. |
| Helpers.PrepareCustomResourceLink | flux/src/helpers/index.tsx:252-303 | A link exists exactly when the item is present and its kind is truthy. It is a custom-resource link exactly for kinds outside the irregular table. A source link exists exactly when the route is 'source'. A custom-resource link's `crd` is the kind's plural dotted with the truthy `jsonData.apiName`. Route links carry the route for the item. Every link's type is the kind's plural and its name is the item's name. Route links take the item's namespace or else `jsonData.metadata.namespace`; the other links take the item's own namespace. |
| Helpers.SourceTypeOf | flux/src/helpers/index.tsx:12-18 | `kindToSourceType[kind] ?? ''` is non-empty exactly for the five source kinds, and then equals the kind's plural. |
| Helpers.GetSourceNameAndType | flux/src/helpers/index.tsx:20-41 | It throws exactly when `jsonData` is missing, or when a Kustomization lacks `spec` or `spec.sourceRef`. A non-empty type is always a source collection. A kind other than Kustomization and HelmRelease names itself, by its own `metadata.name` and its own source type. |
| Helpers.HelmReleaseRefPrecedence | flux/src/helpers/index.tsx:28-34 | For a HelmRelease, `chartRef` wins over `chart.spec.sourceRef`. The latter is used only when `chartRef` is absent. With neither, the name is '' and the type is ''. |
| Helpers.KustomizationUsesSourceRef | flux/src/helpers/index.tsx:25-27 | A Kustomization resolves to its `sourceRef`'s name. The type is '' exactly when the referenced kind is not a source kind. |
| Duration.Exec | flux/src/helpers/index.tsx:167-173 | `regex.exec` returns a match at or after `lastIndex`. Group 1 is a non-empty run of digits, group 2 is a unit letter, and together they are the matched text. |
| Duration.ExecLeftmost | flux/src/helpers/index.tsx:167-171 | The match is the leftmost one: no match starts between `lastIndex` and it, and none at all when `exec` returns null. |
| Duration.ExecReading | flux/src/helpers/index.tsx:171-186 | The match's value plus the reading of the text after it is the reading of the text from `lastIndex`. A null result means that text reads as 0. |
| Duration.ExecHere | flux/src/helpers/index.tsx:167-173 | A match right at `lastIndex` is the one `exec` returns, and it accounts for the reading from there. |
| Duration.ExecSkip | flux/src/helpers/index.tsx:167-171 | Without a match at `lastIndex`, both `exec` and the reading move on by one character. |
| Duration.ParseDuration | flux/src/helpers/index.tsx:166-189 | The loop's total equals the reference reading: each `(\d+)[hms]` match adds value × 3600000, 60000 or 1000, and all other text adds 0. |
| Duration.DurationWithoutDigits | flux/src/helpers/index.tsx:166-189 | Text without digits, including "", gives 0. |
| Duration.DurationOfToken | flux/src/helpers/index.tsx:171-185 | A leading `<digits><unit>` adds its value times its unit. The rest of the text is read on its own. |
| Duration.DurationAppend | flux/src/helpers/index.tsx:166-189 | No match spans a cut made after a non-digit, so the reading of the whole is the sum of the readings of the parts. |
| Duration.DurationOfFormat | flux/src/helpers/index.tsx:166-189 | An interval written as amounts with units reads as the sum of amount × unit. |
| Duration.OneHourThirty | flux/src/helpers/index.tsx:166-189 | "1h30m" is 5400000 ms. |
| Inventory.LookupCrd | flux/src/inventory/index.tsx:17-24 | A lookup hits exactly when `group/kind` is cached, and then hands over the cached CRD without a fetch. On a miss it fetches `getPlural(kind).group`. It throws exactly on a miss with no kind. |
| Inventory.CompleteCrdFetch | flux/src/inventory/index.tsx:25-35 | The callback receives the reply. Only a found CRD is stored, under its key, and no other key changes. |
| Inventory.CacheOnlyRemembersFoundCrds | flux/src/inventory/index.tsx:17-35 | After a found CRD, the next lookup for that group and kind is a hit on it. After "not found", the next lookup fetches again. |
| Inventory.PlanEntry | flux/src/inventory/index.tsx:48-69 | A kind with a built-in class is fetched directly. Any other kind goes through the CRD lookup: a cached CRD, a CRD fetch by name, or a throw when the kind is missing. |
| Inventory.BuiltInIgnoresCache | flux/src/inventory/index.tsx:52-66 | A built-in kind is fetched directly whatever the cache holds. |
| Inventory.IssueUntilFault | flux/src/inventory/index.tsx:45-107 | Over the entries' plans, requests go out in inventory order, one per entry. The loop ends early exactly at the first plan that throws. |
| Inventory.RequestAll | flux/src/inventory/index.tsx:45-107 | A missing inventory issues nothing. Otherwise the requests are those of a prefix of the entries, in order, and the loop aborts exactly when some entry's lookup throws. Without an abort every entry is requested. With one, the entry right after the prefix is the one that throws. |
| Inventory.IssueSkippingFaults | flux/src/inventory/index.tsx:45-107 | Corrected loop over the plans: every request comes from some plan, and every plan that does not throw has its request issued. |
| Inventory.RequestAllSkipping | flux/src/inventory/index.tsx:45-107 | Corrected loop over an inventory: every request comes from some entry, and every entry whose lookup does not throw is requested. |
| Inventory.SkippingFaultsAppend | flux/src/inventory/index.tsx:45-107 | The corrected loop over two runs of plans issues the first run's requests, then the second's, so requests keep inventory order. |
| Inventory.SkippingFaultsOne | flux/src/inventory/index.tsx:45-107 | The corrected loop over one plan issues its request when it does not throw, and nothing otherwise. |
| Inventory.NoFaultSameRequests | flux/src/inventory/index.tsx:45-107 | When no plan throws, the loop as written and the corrected loop issue the same requests. |
| Inventory.ThrowingEntryBlocksLaterEntries | flux/src/inventory/index.tsx:45-107 | An entry whose lookup throws aborts the loop before any later entry is requested. The corrected loop requests exactly what the later entries alone would. |
| Inventory.KindlessIdThrows | flux/src/inventory/index.tsx:49-69 | An id with fewer than three underscores has no kind. Unless a built-in class is named "undefined", its lookup on an empty cache throws. |
| Inventory.BuiltInKindsNeverUseCrds | flux/src/inventory/index.tsx:52-66 | A request that is not a built-in fetch never targets a kind with a built-in class, in either loop. |
| Inventory.MalformedIdBlocksLaterEntries | flux/src/inventory/index.tsx:48-69 | With an empty cache, the id "app" aborts the loop before a later GitRepository is requested. The corrected loop requests the GitRepository's CRD. |
| Inventory.ParseGitRepoEntry | flux/src/helpers/index.tsx:218-226 | The id `default_myrepo_source.toolkit.fluxcd.io_GitRepository` parses to namespace default, name myrepo, group `source.toolkit.fluxcd.io` and kind GitRepository. |
| Inventory.GitRepoCrdName | flux/src/inventory/index.tsx:24 | The CRD the GitRepository kind looks up is `gitrepositories.source.toolkit.fluxcd.io`. |
| Inventory.GitRepoCacheKey | flux/src/inventory/index.tsx:18 | The GitRepository's cache key is `source.toolkit.fluxcd.io/GitRepository`. |
| Inventory.GitRepoPlan | flux/src/inventory/index.tsx:48-69 | Without a built-in class and with an empty cache, the GitRepository entry asks for its CRD by name. |
| Inventory.Merge | flux/src/inventory/index.tsx:56-60 | A uid already shown leaves the list unchanged. A new uid is appended at the end. The old list is a prefix, the uids are the old ones plus the new one, and distinct uids stay distinct. |
| Inventory.MergeIdempotent | flux/src/inventory/index.tsx:97-101 | Merging the same resource twice changes nothing the second time. |
| Inventory.Fold | flux/src/inventory/index.tsx:56-60 | Merging a sequence of arrivals never removes an element and keeps uids distinct. The shown uids are the union of the old uids and the arrivals' uids. |
| Inventory.FoldOrderIndependentUids | flux/src/inventory/index.tsx:56-60 | The shown uids do not depend on arrival order. |
| Inventory.FoldOfShownIsNoop | flux/src/inventory/index.tsx:97-101 | Arrivals whose uids are all shown already change nothing. |
| Inventory.FoldIdempotent | flux/src/inventory/index.tsx:97-101 | Delivering the same batch again adds nothing. |
| Inventory.FoldElements | flux/src/inventory/index.tsx:56-60 | When resources sharing a uid are equal, the list ends up with exactly the old resources and the arrivals. |
| Inventory.FoldOrderIndependent | flux/src/inventory/index.tsx:56-60 | Under the same condition, the shown resources do not depend on arrival order. |
| Inventory.Normalise | flux/src/inventory/index.tsx:78-95 | Name and namespace fall back to the id's when the payload's are falsy. `jsonData.kind` is the id's kind and `jsonData.apiName` is the id's group. The uid, spec and status are the payload's, for a payload given as its JSON record. |
| Inventory.NormalisedKindColumn | flux/src/inventory/index.tsx:78-95 | A normalised custom resource shows the id's kind in the Kind column. |
| Inventory.CrdLinkMatchesFetchedCrd | flux/src/inventory/index.tsx:24 | The `crd` parameter of a normalised resource's link is the CRD name its lookup fetches. |
| Inventory.HasCondition | flux/src/inventory/index.tsx:143 | `conditions.some(c => c.type === t)` holds exactly when some condition has type t. |
| Inventory.ReadyColumn | flux/src/inventory/index.tsx:140-146 | The column shows 'True' exactly when some condition has type Ready, whatever its status, and 'False' otherwise. |
| Inventory.ReadyColumnByStatus | flux/src/inventory/index.tsx:140-146 | Corrected column: 'True' exactly when a condition of type Ready has status "True". |
| Inventory.ReadyByStatusImpliesReady | flux/src/inventory/index.tsx:140-146 | The corrected column shows 'True' only where the written one does. |
| Inventory.NotReadyShownAsReady | flux/src/inventory/index.tsx:140-146 | A resource whose Ready condition is "False" shows 'True' as written and 'False' when corrected. |
| Inventory.NormalisedReadyColumn | flux/src/inventory/index.tsx:78-95 | A normalised custom resource's Ready column reads the payload's own conditions, for a payload given as its JSON record. |
| Inventory.Step | flux/src/inventory/index.tsx:27-101 | A reply never removes a shown resource and keeps uids distinct. A CRD reply touches only the cache: a found CRD is stored under its `group/kind` key, replacing any earlier value, and a "not found" reply changes nothing. A resource reply touches only the list. A null custom-resource payload changes nothing. |
| Inventory.RunResources | flux/src/inventory/index.tsx:41-112 | After any replies, the list is the merge fold of what they offered, started from the list already there. |
| Inventory.ShownResourcesAfterReplies | flux/src/inventory/index.tsx:41-112 | The earlier list stays a prefix and uids stay distinct. The shown uids are the earlier ones plus the offered ones. |
| Inventory.RunCacheKeys | flux/src/inventory/index.tsx:27-32 | The cache only grows, and only by the keys of CRDs that were found. |
| Inventory.RunKeepsUnstoredEntries | flux/src/inventory/index.tsx:27-32 | After any replies, a cached key that no found CRD was stored under keeps its CRD: only a found CRD overwrites a cache entry. |
| Inventory.GitRepositoryRequestsCrd | flux/src/inventory/index.tsx:48-69 | With no built-in GitRepository class and an empty cache, a lone GitRepository entry requests the CRD `gitrepositories.source.toolkit.fluxcd.io`, in both loops. |
| Inventory.GitRepositoryArrives | flux/src/inventory/index.tsx:70-101 | After the CRD and the resource arrive, the cache holds the CRD under `source.toolkit.fluxcd.io/GitRepository`. The list holds the one resource, of kind GitRepository, in group `source.toolkit.fluxcd.io` and namespace `default`. |
| Inventory.CrdNotFoundScenario | flux/src/inventory/index.tsx:27-32 | A "not found" CRD reply leaves both the list and the cache empty. No resource reply for the GitRepository can follow it. |
| Inventory.FollowUps | flux/src/inventory/index.tsx:69-77 | A reply requests something exactly when it is a CRD that was found. It then requests the resource of the same target through that CRD. |
| Inventory.IssuedByAvoids | flux/src/inventory/index.tsx:69-77 | Replies whose CRDs for a target were all not found request nothing about that target. |
| Inventory.OfferedWithout | flux/src/inventory/index.tsx:27-32 | When every reply about a target is a CRD reply, dropping those replies changes nothing offered to the list. |
| Inventory.NotFoundLeavesOnlyCrdReplies | flux/src/inventory/index.tsx:27-77 | If the loop asked about a target only for its CRD, and every CRD reply for it says "not found", then every reply about it is a CRD reply. |
| Inventory.NotFoundDropsEntry | flux/src/inventory/index.tsx:27-77 | Under the same conditions, the shown list is the same as if no reply about the target had come. |
| Inventory.GitRepositoryRepliesAnswered | flux/src/inventory/index.tsx:69-77 | The CRD reply of the GitRepository scenario answers the loop's CRD fetch, and its resource reply answers the fetch the found CRD issued. |

## Left out

- React state and effects, JSX, the `Table` and `Link` components, `prepareNameLink` and `ObjectEvents` are rendering over a UI library. Only the data a link carries is modelled.
- The `crds` React state is left out. It is written when a CRD arrives and never read.
- `apiGet`, `makeCRClass`, `K8s.ResourceClasses` and the network are left out. The kinds with built-in classes are a set parameter, and replies are arrivals in any order.
- Concurrency, timing and request coalescing are left out. The code has none; two lookups of one uncached key both fetch, which the model shows as two misses.
- The Age column and `DateLabel` are left out. They are host date formatting.
- Helpers.GetPlural: lower-casing is ASCII only. JavaScript's full Unicode `toLowerCase` is not modelled.
- Helpers.GetPlural: JavaScript prototype keys in the plural and source-type tables, such as kind "constructor", are not modelled. Both tables are plain maps.
- Duration.ParseDuration: JavaScript numbers are doubles. Unbounded integers stand in for them, so precision loss on very long digit runs is not modelled.
- The `FLUX_CRDS` constants are left out. They are fixed strings that the inventory view imports but does not use; the CRD name of each Flux kind follows from `Helpers.GetPlural` (`Inventory.GitRepoCrdName` states one).
- Inventory.Normalise: the model assumes that the `data` the custom-resource callback receives is the raw JSON record, with top-level kind, apiName, metadata, spec and status. If it is a resource object like the built-in replies, whose fields sit under `jsonData`, then the spread copies no top-level `spec`, `status` or `kind`. The `kind`, `spec` and `status` ensures of `Inventory.Normalise`, and `Inventory.NormalisedReadyColumn`, hold only under that assumption; the resource-object shape is not modelled.
- Metadata is assumed present on every record. Reads of `metadata.uid` and `metadata.name` on a record without metadata would throw; that case is not modelled.
- Inventory.Step: a reply is folded whatever request it answers. That each reply answers an issued request is the separate predicate `Inventory.Answered`. Only lemmas that assume it can rule out a resource for an entry whose CRD was not found. A request answered twice is not excluded.
- Built-in replies are assumed non-null. The source reads `data.metadata.uid` on them without a check.

## Findings

| source | as written | input that shows it | evidently intended | confidence | as-written member | corrected member |
|---|---|---|---|---|---|---|
| flux/src/inventory/index.tsx:48-69 | An id with fewer than three underscores parses with kind `undefined`. No built-in class is named "undefined", so the id goes to `getCRDForGroupKind`. On a cache miss, `getPlural(undefined)` calls `toLowerCase` on `undefined` and throws. The exception escapes the async loop, so no later entry is requested. | inventory `[{id: "app"}, {id: "default_myrepo_source.toolkit.fluxcd.io_GitRepository"}]` with an empty cache (`Inventory.MalformedIdBlocksLaterEntries`) | The unresolvable entry is skipped and the GitRepository is still requested | not executed; high | Inventory.ThrowingEntryBlocksLaterEntries | Inventory.RequestAllSkipping |
| flux/src/inventory/index.tsx:140-146 | The Ready column tests only that a condition of type Ready exists, not its status. | a Kustomization whose conditions are `[{type: "Ready", status: "False"}]` shows Ready 'True' | 'True' only when the Ready condition's status is "True" | not executed; medium | Inventory.NotReadyShownAsReady | Inventory.ReadyColumnByStatus |
