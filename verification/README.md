# KafkaUI backend: a verified model

A Dafny 4.11 model of the stateful and algorithmic parts of the KafkaUI backend, with proofs of
what they promise. `dafny verify dfyconfig.toml` checks everything.

Each component is modelled in the source's own form (classes with fields that methods update, loops
with invariants, or functions) and tied to a simple specification; the promises are then proved of
the specification for all inputs, all runs or all reachable states.

| file | component | specification it refines |
|---|---|---|
| `MetricsStore` | in-memory time series with eviction and binary search | a log from which nothing is evicted, and a linear filter |
| `Rbac`, `AutoAssignment`, `Access` | group expansion, role rules, role resolution, the access check, the permissions endpoint | reachability in the group graph; conjunction of the stated conditions |
| `JsonPath`, `Masking`, `MaskingHeap`, `MaskingLaws` | masking of JSON documents in place | a fold of functional path updates |
| `RateLimiter` | fixed-window login limiter with an opportunistic sweep | a limiter that knows one key only and never sweeps |
| `Clusters`, `Registry`, `DynamicConfig`, `Admin`, `AdminRuns`, `AdminLaws` | live registry, persisted file, admin requests, restart | one list of configurations; requests as steps on (static, file, live) |
| `Varint`, `WireFrame`, `Base64Url`, `Session`, `LdapEscape` | wire frame, signed cookie, filter escaping | the encoders (RFC 4648 section 5, RFC 4515 section 3, Protocol Buffers Encoding "Base 128 Varints") |
| `Browse`, `BrowseLaws` | poll loop, over-fetch, mask, filter, truncate | the concatenation of the batches up to the first empty or timed-out poll |
| `Sorting`, `ConsumerLag`, `MetricGroups` | offset and lag aggregation, metric grouping | what a report is, independently of map iteration order |
| `SchemaCache`, `SchemaFailures` | derived and schema caches with a single flight, any number of goroutines | an immutable oracle of schemas |

## Results worth knowing

Some intuitive statements about the code hold only under a condition. Each condition is proved to be the
exact one; the members named with it include a failing input for all but the last, which depends on the
encoder alone.

- Eviction is invisible to queries of a given duration, over all runs, exactly when that duration is at
  most 24 hours (`EvictionInvisibleUpTo24h`, `LongQueryLosesAPoint`). The metrics endpoint accepts ranges up
  to 30 days (`internal/api/handlers/metrics.go:52-70`), so its longer ranges are silently cut off.
- A filtered browse answers with the first matches of all available records, whatever the filter, exactly
  when there are at most as many records as it fetches, five times the limit and at most 500
  (`CompleteForEveryFilterIff`, `SixthRecordIsMissed`).
- The user interface never enables an action that the middleware refuses, exactly unless the permissions
  endpoint, which leaves out the external id (`internal/api/handlers/auth.go:447`), falls back to a default
  role while the middleware finds matching rules and none of them gives that role
  (`EnabledActionsPassIff`, `EnabledActionCanBeRefused`).
- An admin request keeps file and live registry in agreement, and an error answer means that nothing
  happened, exactly unless the file has been written and the client for a new or changed configuration then
  cannot be constructed. While it still cannot, the next start fails altogether, static clusters included
  (`StepKeepsConsistentIff`, `ErrorsChangeNothingIff`, `StrandingShowsAtRestart`, `FailedClientStrands`).
- Over any run of requests, client constructions failing or not, a name is live exactly as the next start
  would load it unless its last effective file change left the registry behind, and the whole list agrees,
  order included, exactly if that holds of every name (`AgreesIff`, `RunConsistentIff`). A cluster that is only in the
  file can be repaired by deleting it exactly when more than one cluster is live, and even then the answer is an
  error; with a single live cluster no requests for that name help
  (`DeletingRepairsIff`, `LoneClusterIsNotRepaired`).
- Submitting a cluster's own configuration again leaves it as it is exactly when it has no SerDe section; an
  update empties that section (`ResubmittingIsIdleIff`, `SerDeIsDropped`).
- A registry built from a configuration is in a valid state, and a failing start closes every client it
  opened, exactly when no cluster name is repeated (`NewRegistry`, `StartWithRepeatedName`).
- A counting window of the limiter stays within `maxAttempts` for every run exactly when `maxAttempts` is at
  least one (`WithinMaxAttemptsIff`, `FirstCallPasses`); the first call of a window is let through without a
  look at the limit. At start-up an absent or zero setting becomes five (`cmd/kafkaui/main.go:156-159`), a
  negative one is passed on. Every call of every run is let through exactly when the window is not positive
  (`EveryCallPassesIff`, `OneTooMany`). An interval of one window length lets through at most
  2·max(1, maxAttempts) − 1 calls of a key, max(1, maxAttempts) if the window is a single clock tick and none,
  being empty, if the window is not positive; each of these bounds is reached.
- A message index is negative exactly when its varint is at least 2^63, and the range check lets it through; of a
  frame the message chosen exists exactly when its count is zero or the varint behind it is below 2^63
  (`IndexNegativeIff`, `ChosenIsAMessageIff`, `NegativeIndexPasses`).
- A schema, codec or descriptor lookup fails exactly if its schema does not parse or the fetch of the flight it
  led or joined failed, over every interleaving of any number of goroutines (`FailsIff`).
- While a schema is stored, a goroutine can still begin to fetch it, exactly if it looked into the cache before
  the store, has not moved since, and no flight for the id is under way (`FetchesStoredIff`, `FetchedTwice`).
- The order of the metric groups is determined exactly when no two prefixes share a display name
  (`AnswerDeterminedIff`, `DisplayNamesCollide`, `TwoAnswers`).
- The outputs for two messages that differ only in a hidden value are equal exactly when the masked document
  can be encoded (`HiddenValueDoesNotShow`).

## Model

| member | source | states |
|---|---|---|
| MetricsStore.Store.Append | internal/metrics/store.go:32-51 | keeps the invariant that the series are what eviction leaves of the full log of all scrapes, for every cluster and metric, and that the latest snapshot is the last scrape's |
| MetricsStore.Store.Record | internal/metrics/store.go:42-49 | every scraped metric with a sample gains exactly one point at the end; other metrics and clusters are unchanged, in whatever order the snapshot is walked |
| MetricsStore.Store.Evict | internal/metrics/store.go:99-112 | drops exactly the leading points before the cutoff from each of the cluster's metrics, nothing elsewhere |
| MetricsStore.Store.QueryMetric | internal/metrics/store.go:62-89 | returns, in append order, exactly the points of the never-evicted log at or after both the query's start and the cluster's last eviction cutoff |
| MetricsStore.Search | internal/metrics/store.go:71-82 | binary search over points in time order gives the same points as the linear filter |
| MetricsStore.Store.GetLatest | internal/metrics/store.go:54-59 | the snapshot of the cluster's last scrape, none if it was never scraped |
| MetricsStore.Store.HasData | internal/metrics/store.go:92-97 | true exactly for the clusters scraped so far |
| MetricsStore.ScrapeIsLogged | internal/metrics/store.go:42-47 | a scraped metric is logged with the value of its first sample and the time of the scrape |
| MetricsStore.NothingElseIsLogged | internal/metrics/store.go:42-49 | nothing is logged for other clusters, for metrics not scraped or for those without a sample |
| MetricsStore.LastScrapeIsSeen | internal/metrics/store.go:32-89 | a query reaching back to the last scrape ends with the value of that scrape's first sample |
| MetricsStore.ScrapeAndQuery | internal/metrics/store.go:32-89 | the same of the store itself: an append followed by a query |
| MetricsStore.EvictionAtAppend | internal/metrics/store.go:32-51 | evicting an already evicted series with the new point added is evicting the whole log once |
| MetricsStore.EvictionShowsIff | internal/metrics/store.go:62-112 | a query differs from the filter of the full log exactly when a logged point lies between its start and the last cutoff |
| MetricsStore.EvictionInvisibleUpTo24h | internal/metrics/store.go:8-112 | over all runs on a non-decreasing clock eviction is invisible to all queries of a duration exactly when it is at most 24 hours |
| MetricsStore.LongQueryLosesAPoint | internal/api/handlers/metrics.go:51-71 | for every longer duration, a two-scrape run whose query misses a logged point |
| Rbac.Expansion.Expand | internal/auth/rbac.go:35-48 | the recursive walk ends on any graph; every name it newly sees is reachable from its items, every item is seen, and every newly seen group has all its members seen |
| Rbac.ExpandActions | internal/auth/rbac.go:31-51 | exactly the non-group names reachable from the actions, each once, on any group graph, cyclic or not |
| Rbac.ClosedHoldsPath | internal/auth/rbac.go:31-51 | a set that holds the items and is closed under groups holds the end of every path: the shared seen set loses nothing |
| Rbac.RBAC.constructor | internal/auth/rbac.go:16-28 | each expanded rule lists, without duplicates, exactly the leaves reachable from the configured rule, or "*" alone if the rule states it |
| Rbac.RBAC.IsAllowed | internal/auth/rbac.go:56-72 | true exactly when some rule of one of the roles covers the cluster and states "*" or reaches the action or "*" |
| Rbac.RBAC.ExpandedActions | internal/auth/rbac.go:75-95 | exactly the expanded actions of the roles' rules that cover the cluster, each once |
| Rbac.MatchesEntry | internal/auth/rbac.go:108-115 | true exactly when the list holds the value or "*" |
| Rbac.ContainsWildcard | internal/auth/rbac.go:98-105 | true exactly when the list holds "*" |
| Rbac.AllowedByOneRole | internal/auth/rbac.go:56-72 | roles add up: a list of roles allows what one of its roles allows |
| Rbac.SingleRuleAllows | internal/auth/rbac.go:56-72 | a single rule for one cluster and one action allows exactly that, "*" standing for all of either |
| Rbac.SingleGroupAllows | internal/auth/rbac.go:35-48 | a rule for a group allows what the group lists, and the group's own name is no action |
| Rbac.AllowedIffListed | internal/auth/rbac.go:56-95 | the decision for an action agrees with the listed actions: allowed exactly when the list holds it or "*" |
| Rbac.EnabledIsAllowedEverywhere | frontend/src/hooks/usePermissions.ts:28 | for one role list, whatever the front end enables from the list for cluster "*" is allowed on every cluster |
| AutoAssignment.MatchesRule | internal/auth/auto_assignment.go:27-86 | comparing the two counts is: at least one condition is stated and every stated one holds |
| AutoAssignment.HasOverlap | internal/auth/auto_assignment.go:88-101 | true exactly when some element of each list agree in lower case |
| AutoAssignment.MatchesIffEachCondition | internal/auth/auto_assignment.go:27-86 | a rule matches exactly if it states a condition and each that it states matches as a rule of its own |
| AutoAssignment.SingleConditions | internal/auth/auto_assignment.go:31-84 | what each of the seven conditions alone asks of the external id, the address, its domain, the organisations and the teams |
| AutoAssignment.DomainOfMeaning | internal/auth/auto_assignment.go:48-50 | the domain is what follows the first "@", and there is one exactly if there is an "@" |
| AutoAssignment.AutoAssign | internal/auth/auto_assignment.go:13-25 | the roles of all matching rules, later repetitions removed |
| AutoAssignment.MatchingRolesMeaning | internal/auth/auto_assignment.go:16-19 | the roles are those of exactly the matching rules |
| AutoAssignment.MatchingRolesAppend | internal/auth/auto_assignment.go:16-19 | they stand in the order of the rules |
| AutoAssignment.FirstOccurrencesMeaning | internal/auth/auto_assignment.go:13-25 | removing later repetitions keeps every role once, in the order of first occurrences |
| Access.ResolveRoles | internal/auth/role_resolver.go:16-34 | a failing store gives an error; else the stored roles if any, else the automatic ones if any, else the default role |
| Access.StoredRolesDecide | internal/auth/role_resolver.go:17-23 | a user with stored roles is granted exactly what these allow, whatever the rules and the default role |
| Access.MatchingRulesDecide | internal/auth/role_resolver.go:25-28 | with nothing stored and some rule matching, exactly what the roles of the matching rules allow |
| Access.DefaultRoleDecides | internal/auth/role_resolver.go:30-33 | with nothing stored and no rule matching, exactly what the default role allows, or nothing if there is none |
| Access.UnknownIsRefused | internal/api/middleware/rbac.go:46-61 | a user who is not in the store, or whose stored roles cannot be read, is granted nothing |
| Access.RequireAction | internal/api/middleware/rbac.go:20-71 | with authentication on, passes exactly an existing user whose effective roles include one with a rule that covers the cluster and reaches the action or "*"; answers unauthorized exactly without a session |
| Access.EnabledForSomeAllowedToOthers | internal/api/handlers/auth.go:447-453 | whatever the access rules, everything enabled for one role list is allowed to another exactly when the second includes the first |
| Access.EnabledActionsPassIff | internal/api/handlers/auth.go:441-453 | the front end never enables what the middleware refuses, exactly unless only the endpoint falls back to the default role and no rule that matches with the external id gives it |
| Access.EnabledActionCanBeRefused | internal/api/handlers/auth.go:447-448 | a configuration and a user for which an enabled action is refused |
| JsonPath.UpdateHits | internal/masking/engine.go:67-112 | after an update the value at the path is the function of the value that was there, and a missing path stays missing |
| JsonPath.UpdateMisses | internal/masking/engine.go:67-112 | every path that is not a prefix or an extension of the updated one still leads to the same value |
| JsonPath.UpdateKeepsDifference | internal/masking/engine.go:67-112 | two documents equal off a path stay equal off it under any update not at a proper ancestor |
| Masking.SplitIsExact | internal/masking/engine.go:94 | splitting a field path at its dots loses nothing, and no part holds a dot |
| Masking.UnrelatedSubtreeUnchanged | internal/masking/engine.go:43-47 | a subtree whose path is unrelated to every applied field path comes out as it went in |
| Masking.SurvivingObjectsKeepKeys | internal/masking/engine.go:43-47 | no path appears, and every object in the result was an object with the same keys |
| Masking.HideIsNonInterfering | internal/masking/engine.go:43-47 | documents that differ only in a hidden value are masked to the same document, wherever the hide stands and whatever else addresses the value or its descendants, unless a field addresses a proper ancestor |
| Masking.HiddenValueDoesNotShow | internal/masking/engine.go:26-55 | two messages that differ only in a value hidden by the rules that match the topic get the same output exactly when they are equal or the masked document can be encoded |
| Masking.MaskShowsExactly | internal/masking/engine.go:118-153 | two values have the same mask exactly when they agree in what a mask may show: the ends of a plain value; of an address the first byte of the local part, the first byte of the domain and its end from the last dot on; of short pieces nothing |
| Masking.AddressMask | internal/masking/engine.go:119-145 | the mask of an address with named parts: one byte of a local part of more than two bytes, one of a host of more than one, and the whole top-level domain, unless the host is empty |
| Masking.AddressMaskWithoutDot | internal/masking/engine.go:132-143 | of a domain without a dot nothing shows |
| MaskingLaws.PlainMask | internal/masking/engine.go:148-152 | the mask of a value without "@": its end bytes around three stars, or the stars alone up to two bytes |
| MaskingLaws.FromByteIsUtf8 | internal/masking/engine.go:126 | a byte shows as itself if it is ASCII, else as the UTF-8 encoding of that code point |
| MaskingLaws.FieldWrites | internal/masking/engine.go:78-87 | what a field of type hide, hash, mask or any other writes at its path |
| MaskingLaws.MatchingRulesMeaning | internal/masking/engine.go:27-32 | exactly the rules whose pattern the topic matches apply |
| MaskingLaws.LaterRulesComeLater | internal/masking/engine.go:43-47 | rules apply in their order and the fields of a rule in theirs |
| MaskingLaws.UpdatesAgreeIff | internal/masking/engine.go:67-112 | documents equal off a path are equal after a write there exactly if the written values are |
| MaskingLaws.FirstFieldDecides | internal/masking/engine.go:43-47 | if the first field that concerns a path writes the same for two documents that differ only there, they are masked to the same document whatever comes later |
| MaskingLaws.MaskLetsViewThrough | internal/masking/engine.go:43-47 | documents that differ only in a masked value with the same view are masked to the same document |
| MaskingLaws.MaskLetsExactlyViewThrough | internal/masking/engine.go:67-88 | with no other field they are masked to the same document exactly if the views are the same |
| MaskingLaws.HashLetsHashThrough | internal/masking/engine.go:43-47 | documents that differ only in a hashed value with the same hash are masked to the same document |
| MaskingLaws.MaskedOrHashedValueDoesNotShow | internal/masking/engine.go:26-55 | the same for whole messages, exactly when they are equal or the masked document can be encoded |
| MaskingLaws.OthersAreKept | internal/masking/engine.go:34-41 | a message that no rule is for, or that does not decode, comes out as it went in |
| MaskingLaws.NullMessage | internal/masking/engine.go:38-54 | the message null is decoded and encoded again |
| MaskingLaws.NestedFieldIsMasked | internal/masking/engine.go:26-112 | a whole message spelled out: a rule for the nested field user.email masks that field's text and nothing else |
| MaskingHeap.GetNestedField | internal/masking/engine.go:93-112 | returns the object that following all keys but the last through objects leads to, or none |
| MaskingHeap.WriteUpdates | internal/masking/engine.go:67-88 | one write to the object at the end of a walk changes the whole document exactly as one functional update at the path; the tree stays a tree |
| MaskingHeap.NewValue | internal/masking/engine.go:78-87 | the value each field type writes, never an object, and no write for an unknown type |
| MaskingHeap.ApplyMask | internal/masking/engine.go:67-88 | the in-place write through the aliased parent is the functional update of the document, including the missing-path and unknown-type cases |
| MaskingHeap.ApplyRules | internal/masking/engine.go:43-47 | all fields of all rules applied in place, in order, are the fold of functional updates |
| MaskingHeap.SelectRules | internal/masking/engine.go:27-32 | the rules whose pattern matches the topic, in order; a bad pattern matches nothing |
| MaskingHeap.Decode | internal/masking/engine.go:38-41 | decoding builds a fresh, unshared tree of objects that stands for the document |
| MaskingHeap.MaskMessage | internal/masking/engine.go:26-55 | the output is the specification's: unchanged without a matching rule, for a malformed value or if encoding fails, else the encoded masked document |
| RateLimiter.LoginRateLimiter.Allow | internal/auth/ratelimit.go:35-63 | with the sweep in place the answer is the one the key's own earlier calls determine; keeps the invariant that the history is in clock order and every forgotten key had outlived its window |
| RateLimiter.LoginRateLimiter.Count | internal/auth/ratelimit.go:49-62 | the decision and the new attempt are those of the fixed-window rule on the key's attempt, and no other key changes |
| RateLimiter.RefusedIff | internal/auth/ratelimit.go:49-62 | in any run a call is refused exactly if its key's window is still open and has let as many of the key's calls through as are allowed |
| RateLimiter.QuietKeyPasses | internal/auth/ratelimit.go:52-55 | a key that was quiet for a window, or never seen, is let through |
| RateLimiter.LoginRateLimiter.Sweep | internal/auth/ratelimit.go:41-46 | removes exactly the attempts older than one window |
| RateLimiter.UnsweptAnswersAgree | internal/auth/ratelimit.go:39-62 | over every run the answers are those of the same map-based limiter with the sweep left out |
| RateLimiter.AnswersDependOnOwnCallsOnly | internal/auth/ratelimit.go:39-62 | in every run the answers one key gets are those of a limiter that never saw another key |
| RateLimiter.CountingWindow | internal/auth/ratelimit.go:49-62 | the current window covers the last call and has let through exactly its count, at most max(1, maxAttempts) |
| RateLimiter.RunBound | internal/auth/ratelimit.go:35-63 | in every run on a non-decreasing clock, whatever other keys do and whenever sweeps happen, a half-open interval of one window length holds at most 2·max(1, maxAttempts) − 1 calls of a key answered with yes (max(1, maxAttempts) for a window of one tick, none for a window that is not positive) |
| RateLimiter.LoginRateLimiter.AnswersAreBounded | internal/auth/ratelimit.go:15-63 | the same of the answers a limiter has actually given, in every state it can get into |
| RateLimiter.AnyWindowBoundIsTight | internal/auth/ratelimit.go:49-62 | for every limit and every window some run reaches that bound |
| RateLimiter.WithinMaxAttemptsIff | internal/auth/ratelimit.go:49-62 | no counting window of any run lets through more than maxAttempts calls exactly when maxAttempts is at least one |
| RateLimiter.FirstCallPasses | internal/auth/ratelimit.go:52-55 | the input for it: a first call is let through and counted whatever the limit, zero and negative ones included |
| RateLimiter.EveryCallPassesIff | internal/auth/ratelimit.go:49-62 | every call of every run on a non-decreasing clock is let through exactly when the window is not positive |
| RateLimiter.OneTooMany | internal/auth/ratelimit.go:57-59 | the input for it: with any positive window a run in which one call too many is refused |
| Clusters.RemoveEntry | internal/kafka/registry.go:104-113 | removing an entry from the list removes its key from the map of configurations and nothing else |
| Clusters.ReplaceEntry | internal/kafka/registry.go:135-138 | replacing an entry keeps the order of names and changes the map at that name only |
| Registry.NewRegistry | internal/kafka/registry.go:22-40 | succeeds exactly when every client can be constructed and then holds order and configurations of the list; the state is valid and every client opened is still held exactly when no name is repeated; a failing start has closed every client it opened exactly when no name is repeated before the failure |
| Registry.StartWithRepeatedName | internal/kafka/registry.go:28-37 | the input for it: a cluster configured twice is listed twice, and one of its two clients is open and held by nobody |
| Registry.Registry.Load | internal/kafka/registry.go:28-37 | one configured cluster more, entered without a check of its name: maps and order follow, and a client of the same name is pushed out unclosed |
| Registry.Registry.Get | internal/kafka/registry.go:42-47 | finds exactly the registered names, and the client found is open and was made for that name |
| Registry.Registry.List | internal/kafka/registry.go:56-68 | names and addresses of the live configurations in registry order |
| Registry.Registry.ClusterCount | internal/kafka/registry.go:70-74 | the number of live configurations |
| Registry.Registry.AddCluster | internal/kafka/registry.go:76-93 | appends to the live list exactly if the name is new and a client can be constructed; keeps order, maps and client ownership in agreement |
| Registry.Registry.RemoveCluster | internal/kafka/registry.go:95-115 | removes exactly that entry, closing its client, and keeps the invariant that every client ever opened is either held and open or closed exactly once |
| Registry.Registry.UpdateCluster | internal/kafka/registry.go:117-139 | replaces the configuration in its place in the order and swaps clients, closing the old one once; refuses unknown names and renames, and changes nothing when the client cannot be constructed |
| Registry.Registry.Close | internal/kafka/registry.go:141-147 | closes exactly the clients held, once; in a valid state every client the registry ever opened has then been closed exactly once |
| DynamicConfig.DynamicConfig.Load | internal/config/dynamic.go:29-51 | a missing file is an empty list, an unreadable one an error |
| DynamicConfig.DynamicConfig.Save | internal/config/dynamic.go:128-158 | either the whole list is replaced or nothing changes |
| DynamicConfig.DynamicConfig.Add | internal/config/dynamic.go:55-72 | appends exactly if the file can be read and written and the name is new, else names the error and changes nothing |
| DynamicConfig.DynamicConfig.Update | internal/config/dynamic.go:76-98 | replaces the entry where it stands, or names the error and changes nothing |
| DynamicConfig.DynamicConfig.Remove | internal/config/dynamic.go:102-124 | removes the first entry of that name, or names the error and changes nothing |
| DynamicConfig.MergeDynamicClusters | cmd/kafkaui/main.go:73-92 | the static clusters followed by the file entries that collide with none of them; an unreadable file is ignored |
| DynamicConfig.MergeHas | cmd/kafkaui/main.go:82-90 | the merged list has exactly the names of both |
| DynamicConfig.MergeDistinct | cmd/kafkaui/main.go:82-90 | merging distinct static names with distinct file names gives distinct names |
| DynamicConfig.MergeLooksUp | cmd/kafkaui/main.go:82-90 | a name is found among the static clusters first, and in the file if it is not there |
| Admin.AdminHandler.IsStatic | internal/api/handlers/admin.go:60-67 | true exactly for the names in the static configuration |
| Admin.AdminHandler.AddCluster | internal/api/handlers/admin.go:113-156 | file, live list and status afterwards are those of the add step: first failing check decides, the file changes before the registry |
| Admin.AdminHandler.UpdateCluster | internal/api/handlers/admin.go:158-201 | the same for the update step; static clusters are refused and the name comes from the URL |
| Admin.AdminHandler.DeleteCluster | internal/api/handlers/admin.go:203-227 | the same for the delete step; static and last clusters are refused |
| Admin.AdminHandler.Serve | internal/api/handlers/admin.go:113-227 | requests handled one after the other leave file and registry as the run of their steps does |
| AdminLaws.AddSucceedsIff | internal/api/handlers/admin.go:113-156 | the exact condition for an add to be answered with created |
| AdminLaws.UpdateSucceedsIff | internal/api/handlers/admin.go:158-201 | the exact condition for an update to be answered with success |
| AdminLaws.DeleteSucceedsIff | internal/api/handlers/admin.go:203-227 | the exact condition for a deletion to be answered with success |
| AdminLaws.RefusedWith | internal/api/handlers/admin.go:113-227 | which requests are forbidden, bad, a conflict or a bad gateway, and that none of these changes anything |
| AdminLaws.AddDoes | internal/api/handlers/admin.go:142-155 | a successful add puts the cluster, setting by setting as requested, at the end of file and registry |
| AdminLaws.UpdateDoes | internal/api/handlers/admin.go:187-200 | a successful update puts the requested settings in place under the name of the URL and leaves order and all other names alone |
| AdminLaws.DeleteDoes | internal/api/handlers/admin.go:216-226 | a successful deletion takes the name out of both lists and leaves all other names and their order alone |
| AdminLaws.LoadedInOrder | cmd/kafkaui/main.go:82-90 | a start loads the static clusters first and then the file's, in order |
| AdminLaws.LoadedWithoutFile | cmd/kafkaui/main.go:74-81 | without a readable file a start goes on with the static clusters |
| Admin.MergeReplaced | cmd/kafkaui/main.go:82-90 | replacing a file entry and merging is merging and replacing it in the live order |
| Admin.MergeWithout | cmd/kafkaui/main.go:82-90 | removing a file entry and merging is merging and removing it from the live order |
| Admin.StepKeepsConsistentIff | internal/api/handlers/admin.go:113-227 | from a state in which live and file agree a request leads to one in which they agree exactly unless the file was written and the client for a new or changed configuration could not be constructed |
| Admin.ErrorsChangeNothingIff | internal/api/handlers/admin.go:113-227 | a success answer leaves file and registry in agreement; an error answer means that neither changed, exactly unless the file was written and the client for a new or changed configuration could not be constructed |
| Admin.RestartReproducesLive | internal/api/handlers/admin.go:113-227 | after any run of requests whose client constructions succeed a restart whose constructions succeed gives back the same names, configurations and order, and any other restart does not come up |
| Admin.RestartRegistry | cmd/kafkaui/main.go:202-221 | loading, merging and building comes up exactly when every loaded configuration's client can be constructed, with exactly the loaded list, for a readable, missing or unreadable file |
| Admin.StrandingShowsAtRestart | internal/api/handlers/admin.go:142-150 | a stranding request answers with an internal error and leaves the registry alone; while its client cannot be constructed no restart comes up, and none comes up with what was live |
| Admin.ResubmittingIsIdleIff | internal/api/handlers/admin.go:158-201 | an update with a cluster's own settings leaves file and registry as they are exactly when the configuration has no SerDe section; every other setting comes back and that one is emptied |
| Admin.SerDeIsDropped | internal/api/handlers/admin.go:248-259 | an entry with a SerDe section that a successful update with its own settings leaves without it |
| Admin.NeverEmptied | internal/api/handlers/admin.go:203-227 | no run of requests, failing or not, removes the last cluster |
| Admin.FailedClientStrands | internal/api/handlers/admin.go:142-150 | an add whose CA file is missing: internal error, absent from the registry; the next start fails, the static cluster included, while that client cannot be constructed, and has the cluster if it can |
| AdminRuns.StepKeepsOrdered | internal/api/handlers/admin.go:113-227 | every request, failing or not, keeps names distinct, static clusters live as configured, and the live names in the order in which the next start would load them |
| AdminRuns.AgreesIff | internal/api/handlers/admin.go:113-227 | after any run from an agreeing state a name is live exactly as the next start would load it unless its last effective file change left the registry behind |
| AdminRuns.RunConsistentIff | internal/api/handlers/admin.go:113-227 | after any run from an agreeing state the live list is exactly what the next start would load, order included, exactly if for no name the last effective file change left the registry behind |
| AdminRuns.AddLeavesOnlyInFile | internal/api/handlers/admin.go:142-150 | an add that writes the file and whose client cannot be constructed leaves the name in the file and out of the registry |
| AdminRuns.OnlyInFileStays | internal/api/handlers/admin.go:113-227 | no request for such a name succeeds, and only a deletion that changes the file ends that it is in the file and not live |
| AdminRuns.DeletingRepairsIff | internal/api/handlers/admin.go:203-227 | deleting such a name makes file and registry agree on it exactly when more than one cluster is live and the disk works; the answer is an error in either case |
| AdminRuns.LoneClusterIsNotRepaired | internal/api/handlers/admin.go:211-219 | with a single live cluster every request of a run of requests for such a name is answered with an error and the name stays in the file and out of the registry |
| Varint.ReadsWhatWasPut | internal/serde/protobuf.go:123 | reading a written base-128 number that fits 64 bits gives it back and stops exactly at its end |
| Varint.ReadIsLocal | internal/serde/protobuf.go:142 | a successful read consumes at least one byte, stays within the buffer and does not depend on what follows |
| Varint.ReadFits | internal/serde/protobuf.go:142 | a number that is read fits into what is left of 64 bits |
| Varint.ThreeHundred | internal/serde/protobuf.go:123 | the documentation's example, 300 as AC 02 |
| WireFrame.ParseMessageIndex | internal/serde/protobuf.go:117-151 | path, bytes read and every error case are those of the recursive reader |
| WireFrame.WrongCounts | internal/serde/protobuf.go:117-141 | no byte stands for the path [0]; a count above 100, or above the number of indices that follow, is an error |
| WireFrame.CutNumbers | internal/serde/protobuf.go:123-145 | a number that is cut off is an error, in the count and in the indices |
| WireFrame.BigEndian | internal/serde/protobuf.go:40 | the first byte of the id is the most significant one |
| WireFrame.HeaderAlone | internal/serde/protobuf.go:35-37 | a header without index is an Avro frame but no Protobuf one, and no frame begins with another byte than zero |
| WireFrame.FirstIndexIsChosen | internal/serde/protobuf.go:61-74 | a first index among the messages chooses that message; none, or one beyond them, is an error |
| WireFrame.ReadPath | internal/serde/protobuf.go:137-150 | the loop over a running offset reads what reading the indices one after the other does, including where it stops with which error |
| WireFrame.MessageIndexIsLocal | internal/serde/protobuf.go:117-151 | on non-empty input that parses, the bytes read lie within it, 1 to 100 indices come out, and more bytes after it change nothing |
| WireFrame.IndicesFitInt64 | internal/serde/protobuf.go:146 | every index is a signed 64-bit number |
| WireFrame.IndexNegativeIff | internal/serde/protobuf.go:142-147 | each index is its number as a signed 64-bit integer, negative exactly when the number is at least 2^63 |
| WireFrame.ChosenIsAMessageIff | internal/serde/protobuf.go:39-74 | of a frame that is taken apart, what the range check lets through is one of the schema's messages exactly when the count behind the id is zero or the varint behind the count is below 2^63 |
| WireFrame.NegativeIndexPasses | internal/serde/protobuf.go:66-74 | the input for it: a single index of 2^63 or more parses to a negative index that the check lets through whatever the schema |
| WireFrame.FrameIff | internal/serde/protobuf.go:39-151 | a frame is taken apart into an id, a path and a payload exactly when it is the magic byte, the id's four bytes, bytes that by themselves read as the path and nothing more, and the payload |
| WireFrame.SplitProtobuf | internal/serde/protobuf.go:40-48 | returns the id, path and payload that `FrameIff` characterises, or the index parser's error |
| WireFrame.MessageIndexInPrefix | internal/serde/protobuf.go:117-151 | cutting off what follows the bytes read changes neither the indices nor the count read |
| WireFrame.IndicesRoundTrip | internal/serde/protobuf.go:137-150 | any number of indices below 2^63 read back in order, and the reader stops at their end |
| WireFrame.FrameRoundTrip | internal/serde/protobuf.go:39-151 | any 32-bit id, any 1 to 100 indices below 2^63 and any payload come back from their frame |
| WireFrame.ShortFormRoundTrip | internal/serde/protobuf.go:129-131 | the one-byte short form stands for the path [0] |
| WireFrame.AvroRoundTrip | internal/serde/avro.go:29-41 | any 32-bit id and any payload come back from an Avro frame, which is detected as one |
| Base64Url.DecodesWhatWasEncoded | internal/auth/session.go:129-148 | unpadded base64url decodes to what it encodes and never holds a dot |
| Base64Url.DigitIsOfAlphabet | internal/auth/session.go:129-130 | the alphabet of section 5 of RFC 4648 |
| Base64Url.GroupsFromTheTop | internal/auth/session.go:129-130 | three bytes are cut into four groups of six bits from the top, fewer are filled up with zero bits |
| Base64Url.GroupsInTurn | internal/auth/session.go:129-130 | longer data is cut three bytes at a time |
| Base64Url.DecodesIff | internal/auth/session.go:143-148 | exactly the strings of alphabet characters and newlines decode whose number of characters is not one more than a multiple of four |
| Base64Url.NewlinesAreSkipped | internal/auth/session.go:143-148 | newlines make no difference |
| Session.VerifiesWhatWasSigned | internal/auth/session.go:124-162 | for every secret and byte string the signed value verifies to what was signed |
| Session.AcceptedIff | internal/auth/session.go:137-162 | a value is accepted as the data exactly when it is two base64url parts around its first dot, of the data and of the data's own MAC |
| Session.SessionAcceptedIff | internal/auth/session.go:85-106 | a cookie opens a session exactly when it carries an encoded session and that encoding's own MAC around its first dot, created at a known time at most maxAge seconds ago |
| Session.ShortSecretIsRefused | internal/auth/session.go:41-44 | a secret of fewer than 32 bytes is refused |
| Session.SessionLifetime | internal/auth/session.go:41-106 | a session comes back unchanged for exactly maxAge seconds (24 hours if 0 is configured) unless created at time zero, then it has expired |
| LdapEscape.PassesEscapeEach | internal/auth/ldap_provider.go:127-132 | the five successive replacements equal one simultaneous character-wise escape |
| LdapEscape.EscapeRoundTrip | internal/auth/ldap_provider.go:127-132 | the escaped name is a well-formed assertion value, every backslash starting a two-digit escape, and unescapes to the original |
| LdapEscape.EscapedIsPlain | internal/auth/ldap_provider.go:127-132 | no asterisk, parenthesis or NUL is left |
| Browse.ConsumeMessages | internal/kafka/client.go:411-456 | the poll loop ends and returns the first records of the available ones up to the clamped limit, with the failure exactly if it came before the limit was reached |
| Browse.AppendRecords | internal/kafka/client.go:427-449 | a batch is taken in up to the limit, in order |
| Browse.BatchesDoNotMatter | internal/kafka/client.go:411-456 | for any non-empty batches, any poll that brings nothing and anything after it, a request returns the first records of the batches run together, and the failure exactly if that poll failed before the limit was reached |
| Browse.Browse | internal/api/handlers/message.go:64-135 | limit check, over-fetch, masking, filtering and truncation combined give the specified response |
| Browse.MaskInPlace | internal/api/handlers/message.go:113-117 | every message is masked where it stands, the others untouched |
| BrowseLaws.LimitInNumbers | internal/kafka/client.go:320-325 | the poll loop takes 100 records unless a positive number is asked for, and never more than 500 |
| BrowseLaws.ErrorsIff | internal/api/handlers/message.go:64-111 | exactly which requests are refused for their limit, and when a failure shows |
| BrowseLaws.PlainAnswer | internal/api/handlers/message.go:107-117 | without a filter the first available records, with nothing changed but the masked value |
| BrowseLaws.FilteredAnswer | internal/api/handlers/message.go:94-135 | with a filter, of the first five times as many, at most 500, so shown, the first matches in order |
| BrowseLaws.OnlyMaskedValuesMatter | internal/api/handlers/message.go:113-135 | records that agree but for their values, with values that are masked alike, give the same answer under every filter |
| BrowseLaws.HiddenValuesNeverShow | internal/api/handlers/message.go:113-135 | what a hide removes can be told neither from an answer nor by any choice of filter and limit |
| Browse.FirstMatches | internal/api/handlers/message.go:120-135 | the first matches up to the limit in order; a failing evaluation counts as no match |
| Browse.PlainIsPrefixOfFetch | internal/api/handlers/message.go:94-117 | over the same polls the unfiltered answer for a limit is a prefix of what the filtered request reads and masks |
| Browse.CompleteForEveryFilterIff | internal/api/handlers/message.go:94-135 | of records told apart by partition and offset, the filtered answer is the first matches of all available records for every filter exactly when there are at most min(5·limit, 500) of them |
| Browse.MatchBeyondFetchIsMissed | internal/api/handlers/message.go:96-135 | with more records than that, a filter for the first record beyond the fetch answers with nothing although the record is there |
| Browse.SixthRecordIsMissed | internal/api/handlers/message.go:96-135 | six records and a filter for which a request of limit one misses the only match |
| Browse.FilterSeesOnlyMasked | internal/api/handlers/message.go:113-135 | inputs that are equal after masking give equal answers under any filter |
| ConsumerLag.Aggregate | internal/kafka/client.go:585-629 | the result is a report: strictly sorted topics, each with all its committed partitions once, strictly sorted, and their total lag |
| ConsumerLag.Group | internal/kafka/client.go:585-602 | each topic's list holds exactly the topic's commits with their lags, never negative, a missing end offset counting as zero |
| ConsumerLag.Entry | internal/kafka/client.go:606-624 | one topic's partitions strictly sorted, none lost or repeated, with the sum of their lags |
| ConsumerLag.ReportIgnoresOrder | internal/kafka/client.go:578-629 | two reports on the same commits met in any two orders are equal |
| ConsumerLag.LagIsConserved | internal/kafka/client.go:592-624 | the topic totals add up to the sum of max(0, end − committed) over all commits |
| ConsumerLag.ReportInOrder | internal/kafka/client.go:606-629 | topics ascend in byte order and partitions in number |
| ConsumerLag.CommitIsShown | internal/kafka/client.go:587-601 | every commit is shown with its committed offset, its end offset or zero, and its lag, never negative |
| ConsumerLag.ShownIsCommitted | internal/kafka/client.go:587-601 | nothing is shown that was not committed |
| Sorting.Sort | internal/kafka/client.go:606-608 | a sorted permutation of the input under any strict weak order |
| Sorting.StrictlySortedUnique | internal/kafka/client.go:627-629 | two strictly sorted lists with the same elements are equal |
| Sorting.StringLessIff | internal/kafka/client.go:628 | byte order of strings: a proper prefix first, else the first difference decides |
| MetricGroups.PrefixMeaning | internal/api/handlers/metrics.go:167-173 | the prefix is the name, closed with an underscore, up to and including its second underscore, or all of it if there is only one |
| MetricGroups.DisplayNameAt | internal/api/handlers/metrics.go:175-184 | character by character, underscores become spaces and the first letter of every part a capital |
| MetricGroups.GroupMetrics | internal/api/handlers/metrics.go:129-165 | every scraped metric is once in the one group of its prefix, metrics strictly sorted by name, groups sorted by display name |
| MetricGroups.MetricIsShown | internal/api/handlers/metrics.go:132-147 | every scraped metric is shown with its name, help text, type, samples and history in the group of its prefix |
| MetricGroups.AnswerInOrder | internal/api/handlers/metrics.go:151-163 | nothing else is shown, and metrics and groups stand in the order of their names |
| MetricGroups.GroupingUnique | internal/api/handlers/metrics.go:149-164 | where display names tell prefixes apart there is only one such grouping, whatever the map order |
| MetricGroups.AnswerDeterminedIff | internal/api/handlers/metrics.go:149-184 | the answer is determined exactly when no two prefixes of scraped metrics share a display name |
| MetricGroups.DisplayNamesCollide | internal/api/handlers/metrics.go:167-184 | every scrape with the metrics up and Up has two prefixes with one display name |
| MetricGroups.TwoAnswers | internal/api/handlers/metrics.go:149-164 | two different answers to a request about a scrape of just these two metrics |
| SchemaCache.StepKeepsInv | internal/schema/client.go:204-224 | every step of any goroutine keeps: caches hold only what the registry gives, each pending flight is the registered one of its id with its leader at work |
| SchemaCache.RunsKeepInv | internal/serde/avro.go:53-70 | the invariant holds in every state that any interleaving of any number of goroutines reaches |
| SchemaCache.AnswersAreCorrect | internal/serde/protobuf.go:90-113 | in every interleaving each successful schema, codec or descriptor lookup answers what the registry's schema for its id gives; no failure is ever cached |
| SchemaFailures.FailsIff | internal/schema/client.go:209-223 | in every interleaving a finished lookup has failed exactly if its schema does not parse in its format or the fetch of the flight it led or joined failed |
| SchemaFailures.AnswersWithoutFailures | internal/schema/client.go:209-223 | where no fetch fails and the schema parses every lookup answers what the registry's schema gives |
| SchemaCache.StoredSchemaIsNotFetchedAgain | internal/schema/client.go:204-224 | a lookup that begins after the schema was stored never enters a flight or fetches, and fails only if the schema does not parse |
| SchemaCache.RunsRemember | internal/schema/client.go:217-223 | in every reachable state the schema of every lookup that got one is in the schema cache, and what was answered from a derivation is in the derived cache |
| SchemaCache.SuccessIsRemembered | internal/serde/avro.go:53-70 | after any successful lookup a new lookup of that id starts with the schema stored, so it will not fetch, and the same derived value is its answer at the first step |
| SchemaCache.LateMeansStoredAtBegin | internal/schema/client.go:205-207 | the mark used above is set at the beginning of a lookup exactly if the schema is stored then, and never changes |
| SchemaCache.OneFetchPerId | internal/schema/client.go:209-219 | two goroutines never lead a flight for the same id at the same time |
| SchemaCache.MissedIff | internal/schema/client.go:205-210 | in every reachable state a goroutine is about to enter a flight exactly if its last step was a look into the cache when the schema was not there |
| SchemaCache.FetchesStoredIff | internal/schema/client.go:204-224 | while a schema is stored a goroutine begins to fetch it exactly if it looked into the cache before the store, has not moved since, and no flight for the id is under way |
| SchemaCache.FetchedTwice | internal/schema/client.go:204-224 | a run of two goroutines in which the same id is fetched twice with success |
| SchemaCache.StepsAdvance | internal/schema/client.go:204-224 | every step brings its own goroutine closer to its end and moves no other |
| SchemaCache.UnfinishedCanStep | internal/schema/client.go:209-223 | no deadlock: an unfinished lookup can take a step or waits for a leader that can |

## Left out

- Browse.ConsumeMessages: does not model the choice of start offsets (latest, timestamp, partition) or the deserialisation of keys and values; one request's polls are a given sequence of outcomes, of which the caller's own cancellation is one.
- Browse.PlainIsPrefixOfFetch: compares the two requests over the same polls, which for the "latest" mode is not what they see, because there the start offset depends on the limit.
- Browse.CompleteForEveryFilterIff: speaks of requests whose polls do not fail.
- MetricsStore.Store.QueryMetric: does not distinguish a nil from an empty result.
- ConsumerLag.Aggregate: takes each committed topic and partition once, as the response, a map keyed by both, has them.
- Admin.StepKeepsConsistentIff: speaks of states whose static names and whose file names are distinct; what the start makes of repeated names is in `Registry.NewRegistry`.
- Sorting.Sort: sorts by insertion; `sort.Slice` is modelled by what it promises, not by its algorithm.
- Session.SessionLifetime: assumes that the JSON codec gives back what it encoded; cookie attributes and a missing cookie are not modelled.
- WireFrame.FrameIff: does not model the decoding of the payload; a path of more than one index is read, but only its first index chooses the message, as in the source.
- LdapEscape.PassesEscapeEach: covers the escaping only, not the substitution of the escaped name into the filter template or the search.
- MetricGroups.GroupMetrics: takes each metric's history as given and upper-cases ASCII letters only.
- SchemaCache.UnfinishedCanStep: does not model panics inside a flight or cancelled contexts.
- Clocks: readings are parameters on a non-decreasing clock; 64-bit overflow of times, durations, counters and lag sums is not modelled.
- Concurrency elsewhere: the store, limiter, registry and file operations each hold a lock and are modelled as atomic; admin requests, which take several locks one after the other, run sequentially.
- Library calls: YAML and JSON coding, HMAC, SHA-256, glob matching, `Sprintf`, Unicode case folding, CEL evaluation and Avro and Protobuf schema parsing are uninterpreted parameters.
- The user store: two maps and a set of ids whose role query fails, instead of SQLite.
- Admin requests that only read (`ListClusters`, `TestConnection`) and the rebuilding of SerDe chains.
- The range and duration parsing of the metrics endpoint, HTTP routing, the other handlers, Kafka, Connect, ksqlDB, LDAP, OIDC and OAuth calls, configuration loading and validation, and the front end apart from the one permission check.
