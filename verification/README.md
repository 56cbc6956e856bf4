# Verification of the Envoy xDS controller core

A Dafny model of the parts of the Envoy xDS controller that decide what Envoy is told: the template merge
engine, the in-memory resource store with its secondary indexes, the choice of the TLS secret for a domain,
the cluster admission check, the string-interning pool, the registry of connected xDS clients, and the
node-ID annotation. `dafny verify dfyconfig.toml` checks everything.

Code that works by changing things in place is modelled that way. The merge engine works on maps in memory
that the result shares with its first operand and that the delete options change. The store is a class; its
template lists are slices over backing arrays that appends reuse and removals shift, and its domain index is
a map of inner maps. Every map the store keeps is a piece of memory of its own, so that a copy has to make new
ones. Each method is proved against a function on values, and the laws are proved about those
functions, over all inputs and all runs.

The modules, from the bottom up:

- `Basics`, `Text`: options, names, sorting; splitting, joining and trimming of strings.
- `GoMaps`: Go maps as references.
- `Json`, `Merge`, `Refill`, `MergeEngine`, `Documents`: JSON trees, what the merge computes and which laws it has,
  merging again, the engine, and the merge of whole documents.
- `Secrets`, `Selection`, `DomainIndex`, `DomainSecrets`, `SecretLookup`: certificate expiry, the choice among
  candidates, the domain index on values and in memory, the winner as a scan of all secrets, the wildcard fallback;
  `SecretRuns` says how the store's operations change the winner.
- `KeyedIndex`, `VirtualServices`, `Clusters`, `Templates`: secondary indexes in general, then those of services
  and clusters, admission of clusters, and template lists in memory.
- `NodeDomains`, `ServiceMaps`, `ClusterMaps`, `SecretMaps`: the parts of the store in memory.
- `StoreModel`, `BulkLoad`, `Startup`: all operations and runs on values, the bulk load, and the concurrent start
  of the process.
- `Store`, `Independence`: the store in memory, and who can see whose changes.
- `StringPool`, `Registry`, `NodeIds`.

## What the code does not do

These properties are promised or expected, and fail. Each has an exact condition and an input that shows it.

- A delete option is documented (docs/templates.md, template options) as deleting a field by key. The engine
  applies the options again at every level where it merges two objects, so deleting `k` also deletes `h.k`
  (`Merge.DeletesOnlyNamedPaths`, `Merge.DeleteReachesDeeper`, `MergeEngine.DeleteTakesNestedKeyExample`).
- Spec names of clusters are checked on create but not on update. A renaming update can take a held name, and
  deleting the renamed cluster then hides the other holder from the create check (`Clusters.NamesUniqueIff`,
  `Clusters.TwoClustersOneName`).
- Filling a filled document from its template again changes nothing without delete options, but may delete more
  with them (`Refill.RefillIsFixedPoint`, `Refill.RefillExample`).
- A secondary index loses a stored resource once two resources carry the same key
  (`StoreModel.RunCompleteIffFree`, `StoreModel.SharedUidLosesService`).
- The chain loop takes a zero expiry for "none yet" and forgets it when a later one follows
  (`Secrets.ChainIsMinimum`, `Secrets.ZeroTimeMisleads`).
- A list of one empty node ID prints to the empty text and reads back as no IDs (`NodeIds.RoundTrip`).

Two details that do no harm: the wildcard fallback reads the clock once per lookup, and its guarantee holds for
any two readings; `InternNamespace` never pools the default namespace, so that string has no single reference.

## Model

| member | source | states |
|---|---|---|
| `Merge.MergeIsPlainThenPrune` | internal/merge/merge.go:62-102 | For all documents, options and paths: the merge with delete options is the merge without them followed by one removal of every delete path at every level where the engine merged two objects |
| `Merge.LevelsAre` | internal/merge/merge.go:72-79 | Those levels are exactly the locations where both documents hold objects all the way down and no replace option cuts the way |
| `Merge.DeletedLocations` | internal/merge/merge.go:97-99 | Every location of the result: gone when it or a location above it is a level followed by a delete path; otherwise it reads as in the merge without delete options, with only deeper deletions applied; no delete path itself survives |
| `Merge.DeletesOnlyNamedPaths` | internal/merge/merge.go:97-99 | The delete options act on the named paths only, as docs/templates.md describes, if and only if, below every location where both documents hold objects and no replace option cuts the way, each field shown at a delete path is named as well; the condition reads the two documents and the options only |
| `Merge.PlainShows` | internal/merge/merge.go:62-95 | Which locations the merge without delete options has, for every location: those of the second document, and those of the first that nothing in the second is in the way of |
| `Merge.DeleteReachesDeeper` | internal/merge/merge.go:97-99 | The family where that fails: deleting `k` also removes `h.k` wherever both sides hold an object under `h` |
| `Merge.PlainLocations` | internal/merge/merge.go:62-95 | At every key of every merged level, what the merge without delete options holds, in terms of what the two documents hold there (absent on one side, objects, arrays, replaced, anything else) |
| `Merge.PlainAbsorbs` | internal/merge/merge.go:62-143 | Without delete options, merging the result with either document again, on its own side, changes nothing |
| `Refill.RefillIsFixedPoint` | internal/merge/merge.go:62-102 | With delete options, filling a filled document again changes nothing if and only if every field shown at a delete path below an object of the template, with no replace option on the way, was deleted by the first fill |
| `Refill.FilledHas` | internal/merge/merge.go:62-102 | Which locations a filled document has, read off the two documents and the options |
| `Refill.RefillRestores` | internal/merge/merge.go:62-95 | What a refill without delete options adds to a pruned document is what was pruned |
| `Refill.RefillExample` | internal/merge/merge.go:97-99 | A concrete template and an empty document where filling again loses a field |
| `Merge.ReplacedReadsAsWritten` | internal/merge/merge.go:75-76 | A location under a replace option reads exactly as the second document wrote it, whatever the first holds there or above |
| `Merge.PathStringIsJoin` | internal/merge/merge.go:145-150 | The path the engine builds for a location is its keys joined by dots, exactly unless further keys follow an empty first key |
| `MergeEngine.DeleteIsPrune` | internal/merge/merge.go:157-170 | Removing one path by recursive descent is the removal of that one path from the tree |
| `MergeEngine.DeleteRecursive` | internal/merge/merge.go:157-170 | In place, on maps in memory: the tree below the map loses exactly that path, the tree shape and its ownership survive, and nothing outside the tree is written |
| `MergeEngine.DeleteKeys` | internal/merge/merge.go:97-99 | In any order of the delete options, the in-place deletions together remove all delete paths and nothing else |
| `MergeEngine.MergeArrays` | internal/merge/merge.go:107-143 | The array union with its two loops: the first array followed by the items of the second that the first lacks, or the second under a replace option |
| `Merge.NothingNew` | internal/merge/merge.go:117-140 | Items the first array holds are not added |
| `Merge.AllNew` | internal/merge/merge.go:117-140 | Items the first array lacks are all added, in order and as often as they occur |
| `Merge.NewItemsConcat` | internal/merge/merge.go:117-140 | What is added is decided item by item |
| `MergeEngine.MapObject.CopyOf` | internal/merge/merge.go:63-67 | The shallow copy a merge starts from shares the maps below, and reads as the same tree |
| `MergeEngine.MapObject.Put` | internal/merge/merge.go:69-95 | Storing a value under a key changes that key only and keeps the maps a tree without sharing |
| `MergeEngine.MergeValue` | internal/merge/merge.go:72-91 | One key held by both sides, on maps in memory: the three-way switch computes the combination of the two values and writes only to the two trees |
| `MergeEngine.TakeKey` | internal/merge/merge.go:69-95 | One round of the loop over the second map: its key is merged in, and what is still to be taken stays intact and shared with nothing |
| `MergeEngine.MergeMaps` | internal/merge/merge.go:62-102 | On trees of maps in memory that share nothing, in any order of keys and options, although nested maps are shared with the first operand and deleted from in place: the result is a tree and reads as the merge of what the two read as before |
| `MergeEngine.ParseOpts` | internal/merge/merge.go:28-41 | The replace paths are exactly those of the replace options, the delete paths exactly those of the delete options |
| `MergeEngine.Decode` | internal/merge/merge.go:54-60 | Decoding allocates a fresh tree of maps that reads as the document |
| `MergeEngine.Encode` | internal/merge/merge.go:50 | Encoding gives back the document the maps read as |
| `MergeEngine.JSONRawMessages` | internal/merge/merge.go:43-52 | Decode, parse options, merge, encode: the merge of the two documents, where anything but an object counts as an empty one |
| `MergeEngine.DeletedAreAbsent` | internal/merge/merge.go:152-155 | No location named by a delete option is left in the merged document |
| `MergeEngine.ReplacedAreWritten` | api/v1alpha1/virtualservice_methods.go:178 | Without delete options, a location named by a replace option reads as the second document wrote it |
| `MergeEngine.DeleteTakesNestedKey` | internal/merge/merge.go:97-99 | For whole documents: a delete option for a top-level key also takes that key inside an object both documents hold |
| `MergeEngine.DeleteTakesNestedKeyExample` | internal/merge/merge.go:97-99 | The same on one concrete document |
| `MergeEngine.PathsWithIs` | internal/merge/merge.go:28-41 | A path carries an operation exactly when an option says so |
| `Documents.MergedLocations` | internal/merge/merge.go:43-52 | For whole documents without delete options, at every key of every level where they meet: what the merged document holds, from what they hold there and whether an option replaces it |
| `Documents.MergedWithDeletes` | internal/merge/merge.go:43-52 | What delete options add, at every location of the merged document: it is gone when a delete path taken from a level where the documents meet names it or something above; otherwise it is there exactly when the merge without delete options has it, and reads the same |
| `Documents.OtherOptionsIdle` | internal/merge/merge.go:28-41 | Only replace and delete options matter, and only which paths they name: merge and unknown options change nothing |
| `Documents.DocumentIs` | internal/merge/merge.go:54-60 | An object counts as itself, anything else as an empty object |
| `Documents.DeletePathsAre` | internal/merge/merge.go:152-155 | The locations delete options name are those whose dot-free keys, joined by dots, are their paths |
| `Secrets.ParseCertificateNotAfter` | internal/store/domain_secrets.go:272-332 | No secret, no tls.crt and no parsable certificate give the zero time; otherwise the running minimum over the parsed chain |
| `Secrets.ParseChain` | internal/store/domain_secrets.go:294-322 | The block loop computes the chain value, skipping blocks that are not certificates or do not parse |
| `Secrets.ParsedTimesAre` | internal/store/domain_secrets.go:294-322 | The times that count are exactly those of the certificates that parse, in the order of the blocks |
| `Secrets.ChainIsMinimum` | internal/store/domain_secrets.go:318-320 | The result is the earliest expiry of the chain if and only if no zero expiry is followed by later ones with nothing earlier in the chain |
| `Secrets.ZeroTimeMisleads` | internal/store/domain_secrets.go:318-320 | A concrete chain where it is not |
| `Secrets.ValidExactly` | internal/store/domain_secrets.go:227-236 | A secret counts as valid just when some certificate parses and every parsed one expires later than now; this holds if and only if no zero expiry misleads the loop or an expiry after the last zero one has passed |
| `Secrets.ClassExactly` | internal/store/domain_secrets.go:227-236 | The class of a secret read off its certificates: unknown exactly when none parses or the earliest expiry is the zero time, valid exactly when all that parse expire later, else expired; and what a misleading zero expiry makes of it |
| `Secrets.DomainsOfList` | internal/store/optimized.go:1501-1536 | An annotation written as a comma-separated list lists exactly its trimmed, non-empty entries |
| `Selection.LessIsStrictTotalOrder` | internal/store/domain_secrets.go:208-219 | The comparator (validity, preferred namespace, namespace, name) is a strict total order |
| `Basics.StringLessIs` | internal/store/domain_secrets.go:214-218 | Strings compare at the first position where they differ, a proper prefix first |
| `Selection.FirstIsBest` | internal/store/domain_secrets.go:208-222 | Whatever order the candidates come in and however they are sorted by the comparator, the first is the unique least one |
| `Selection.GetBestSecretWithValidity` | internal/store/domain_secrets.go:147-223 | Returns the secret and class of the unique least candidate, including the no-entry, one-entry and stale-entry paths, in any map order |
| `Selection.BestIgnoresOthers` | internal/store/domain_secrets.go:208-222 | Removing a loser or adding a candidate never changes the choice except to the newcomer |
| `SecretLookup.IndexOffersScan` | internal/store/domain_secrets.go:147-223 | The domain index offers exactly the candidates a scan of all stored secrets finds |
| `SecretLookup.WinnerPreferences` | internal/store/domain_secrets.go:208-222 | No annotated secret beats the winner in validity; within its class the preferred namespace comes first; the rest is alphabetical |
| `SecretLookup.WinnerClass` | internal/store/domain_secrets.go:147-223 | The winner is valid exactly when a stored secret of the domain is in force, unknown exactly when none is and one has no known expiry, absent exactly when none is stored |
| `SecretLookup.UnknownBeatsExpired` | internal/store/domain_secrets.go:208-211 | If a secret of the domain has no certificate that parses, the winner is in force or has no known expiry |
| `SecretLookup.DeleteLoser` | internal/store/domain_secrets.go:147-223 | Deleting a stored secret that does not win leaves the winner unchanged |
| `SecretLookup.AddNewcomer` | internal/store/domain_secrets.go:147-223 | A secret under a new key either wins or leaves the winner unchanged |
| `SecretRuns.DeleteSecretWinner` | internal/store/optimized.go:1011-1019 | After the store deletes a secret it serves no domain, and a winner that was another stays |
| `SecretRuns.SetSecretWinner` | internal/store/optimized.go:980-1001 | After the store sets a secret it serves the domain, or the winner is the one among the others |
| `SecretRuns.WinnerIsHistory` | internal/store/optimized.go:980-1019 | After any run the winner is a secret last set, not deleted since and annotated with the domain |
| `SecretLookup.WinnerRankOverTime` | internal/store/domain_secrets.go:227-236 | With time the class of the winner never rises, and at one instant the preferred namespace does not affect the class |
| `SecretLookup.GetWildcardDomain` | internal/xds/resbuilder/utils/helpers.go:115-140 | The loop over the labels returns the star followed by everything from the first dot on, or nothing when only dots follow |
| `SecretLookup.WildcardFromParts` | internal/xds/resbuilder/utils/helpers.go:115-140 | Said of the labels: a star in place of the first, or nothing when no other label is non-empty |
| `SecretLookup.WildcardOfWildcard` | internal/xds/resbuilder/utils/helpers.go:115-140 | The wildcard of a wildcard domain is itself |
| `SecretLookup.FallbackMeaning` | internal/store/optimized.go:1294-1358 | For any two clock readings: a secret in force is returned if and only if one exists for the domain or its wildcard, nothing only if neither has any, the wildcard is used exactly for want of an exact secret or to gain validity, the reason is the class of the exact secret passed over, and names and classes reported are those found |
| `DomainIndex.RebuiltEntries` | internal/store/optimized.go:1562-1602 | The rebuilt index holds under a domain exactly the secrets annotated with it, with their expiry |
| `DomainIndex.EnrollExact` | internal/store/optimized.go:1501-1536 | Adding a secret to a rebuilt index gives the index rebuilt with it |
| `DomainIndex.WithdrawExact` | internal/store/optimized.go:1539-1558 | Removing a secret from a rebuilt index gives the index rebuilt without it, empty inner maps gone |
| `DomainIndex.SecretStepsExact` | internal/store/optimized.go:980-1019 | Setting and deleting secrets keeps the index equal to the one rebuilt from scratch |
| `DomainSecrets.DomainSecretsIndex.Add` | internal/store/domain_secrets.go:101-106 | In place on shared inner maps: adds one entry, touches only what the index owns |
| `DomainSecrets.DomainSecretsIndex.Remove` | internal/store/domain_secrets.go:109-118 | In place: removes one entry and the inner map when it becomes empty |
| `DomainSecrets.DomainSecretsIndex.AddSecret` | internal/store/optimized.go:1501-1536 | The loop over the comma-separated annotation enrols the secret under exactly its trimmed non-empty domains |
| `DomainSecrets.DomainSecretsIndex.RemoveSecret` | internal/store/optimized.go:1539-1558 | The loop withdraws the secret from exactly those domains |
| `DomainSecrets.DomainSecretsIndex.GetBest` | internal/store/domain_secrets.go:147-223 | The selection, made on the entries the index holds for the domain |
| `DomainSecrets.DomainSecretsIndex.Copy` | internal/store/optimized.go:369-375 | A deep copy: equal contents, no inner map shared |
| `DomainSecrets.Rebuild` | internal/store/optimized.go:1562-1602 | The two nested loops, over secrets in any order, build the rebuilt index in fresh memory |
| `KeyedIndex.PutCompleteIffFree` | internal/store/optimized.go:418-444 | A secondary index that finds everything still does after a set if and only if no other stored resource carries the new key |
| `KeyedIndex.LookupIsScan` | internal/store/optimized.go:157-163 | On a sound and complete index a lookup finds exactly what a scan of the primary map finds |
| `KeyedIndex.PutLookup` | internal/store/optimized.go:126-147 | What each lookup gives after a set, complete index or not: the last resource set wins its key |
| `KeyedIndex.DropLookup` | internal/store/optimized.go:165-176 | What each lookup gives after a delete: nothing under the key of the resource deleted, whoever was found there |
| `VirtualServices.ListIsScan` | internal/store/optimized.go:1386-1397 | A sound and complete template list holds exactly the stored services using the template, each once |
| `VirtualServices.TemplateKeyIs` | internal/store/optimized.go:179-192 | A service resolves to the template it refers to, in the namespace given or else in its own |
| `VirtualServices.AddToTemplateLists` | internal/store/optimized.go:194-203 | What every list becomes: appended to unless the UID is listed, other lists unchanged |
| `VirtualServices.RemoveFromTemplateLists` | internal/store/optimized.go:220-226 | What every list becomes: the first entry with the UID gone, the order kept, other lists unchanged |
| `VirtualServices.NormalizeKeeps` | api/v1alpha1/virtualservice_methods.go:303-310 | Normalising spells out the namespaces of the template and tracing references and changes nothing else |
| `VirtualServices.ServiceStepsSound` | internal/store/optimized.go:126-176 | Setting and deleting services keeps the UID index and the template lists sound, from any state: no lookup ever returns a service that is not stored or does not carry the key |
| `VirtualServices.UidStepComplete` | internal/store/optimized.go:126-176 | The UID index stays complete exactly when no other service has the UID; deleting always keeps it complete |
| `VirtualServices.TemplateStepComplete` | internal/store/optimized.go:179-227 | The template lists stay complete exactly when no other service with the same template has the UID; deleting always keeps them complete |
| `Clusters.ClusterStepsSound` | internal/store/optimized.go:418-444 | Setting and deleting clusters keeps the UID and spec-name indexes sound |
| `Clusters.UidStepComplete` | internal/store/optimized.go:418-444 | The UID index stays complete exactly when no other cluster has the UID |
| `Clusters.SpecStepComplete` | internal/store/optimized.go:418-444 | The spec-name index stays complete exactly when no other cluster has the new name |
| `Clusters.AdmissionIsScan` | internal/webhook/v1alpha1/cluster_webhook.go:69-89 | On a complete index the create check decides exactly what a scan for another cluster with the name would |
| `Clusters.CreateTakesEffect` | internal/webhook/v1alpha1/cluster_webhook.go:69-89 | A create is stored exactly when its spec is fine and no other cluster holds the name, and otherwise changes nothing |
| `Clusters.UpdateTakesEffect` | internal/webhook/v1alpha1/cluster_webhook.go:92-109 | An update is stored exactly when its spec is fine, and otherwise changes nothing |
| `Clusters.AdmissionChecksAll` | internal/webhook/v1alpha1/cluster_webhook.go:69-109 | Through any history every stored cluster has a spec that unmarshals and validates |
| `Clusters.AdmitKeepsUniqueIff` | internal/webhook/v1alpha1/cluster_webhook.go:69-109 | One request keeps the spec-name index complete if and only if it is not an admitted update to a name another cluster holds |
| `Clusters.AdmitKeepsNamesUniqueIff` | internal/webhook/v1alpha1/cluster_webhook.go:69-109 | The same said of the names: one request keeps them unique if and only if it is not such an update |
| `Clusters.AdmissionUniqueIff` | internal/webhook/v1alpha1/cluster_webhook.go:69-109 | Over any history of requests the index stays complete throughout if and only if no update collides |
| `Clusters.NamesUniqueIff` | internal/webhook/v1alpha1/cluster_webhook.go:69-109 | Over any history of requests no two stored clusters ever share a spec name if and only if no update collides |
| `Clusters.AdmissionKeepsNamesUnique` | internal/webhook/v1alpha1/cluster_webhook.go:69-89 | In particular through any history of creates, deletes and updates that keep the name |
| `Clusters.RenamingUpdateBreaksUniqueness` | internal/webhook/v1alpha1/cluster_webhook.go:92-109 | The family where uniqueness is lost: rename by update, delete the renamed cluster, and the create check admits a duplicate |
| `Clusters.TwoClustersOneName` | internal/webhook/v1alpha1/cluster_webhook.go:69-109 | A concrete history of five admitted requests that ends with two clusters of one name |
| `StoreModel.RunInv` | internal/store/optimized.go:126-1019 | In every run from every good state: all indexes sound, the incremental domain index equal to the rebuilt one |
| `StoreModel.RunCompleteIffFree` | internal/store/optimized.go:126-1019 | Each of the four indexes stays complete throughout a run if and only if no operation of the run sets a resource whose key another stored resource holds at that moment |
| `StoreModel.SharedUidLosesService` | internal/store/optimized.go:126-176 | Where completeness fails: of two services with one UID, deleting the later leaves the earlier stored but not found |
| `StoreModel.StatusIsHistory` | internal/store/virtualservice_status.go:31-65 | The status of a name after any run: the last one written, unless a later operation erased it or deleted the service while, by its last setting and deletion, it was stored |
| `StoreModel.StoredIsHistory` | internal/store/optimized.go:126-176 | After any run a service is stored if and only if its last setting is later than its last deletion, and it is the one last set |
| `StoreModel.ClusterIsHistory` | internal/store/optimized.go:418-444 | So for clusters |
| `StoreModel.SecretIsHistory` | internal/store/optimized.go:980-1019 | So for secrets |
| `StoreModel.NodesAreHistory` | internal/store/optimized.go:1442-1454 | The node-domain index is that of the last replacement |
| `StoreModel.DeleteResetsStatus` | internal/store/optimized.go:165-176 | Deleting a service resets its status if and only if the service is stored or had none |
| `StoreModel.DeleteKeepsOrphanStatus` | internal/store/optimized.go:165-176 | A status written for a name that is not stored survives deletion of that name |
| `StoreModel.StatusOnlyWritten` | internal/store/virtualservice_status.go:31-65 | In any run a name without a status keeps none until one is written for it, so a service deleted and set again starts clean |
| `BulkLoad.FillIsReplay` | internal/store/optimized.go:605-751 | Bulk load into a good state gives the same maps and indexes as setting every normalised item in turn, and keeps the invariant |
| `BulkLoad.FillStoresService` | internal/store/optimized.go:634-645 | Every listed service is stored as last listed, with its contents and the namespaces of its references spelled out; it is among the users of its template and, on complete lists, in its list |
| `BulkLoad.FillStoresRest` | internal/store/optimized.go:605-751 | Every listed cluster and secret is stored as last listed |
| `BulkLoad.FillKeepsUnlisted` | internal/store/optimized.go:605-751 | What is not listed stays as it was |
| `BulkLoad.FillKeepsStatuses` | internal/store/optimized.go:605-751 | Statuses and the node-domain index stay as they were |
| `Startup.ProcessInv` | cmd/main.go:469-484 | In every interleaving of the startup thread (fill, rebuild writes, close) and reconcile calls that first receive on the channel: the bulk load meets an empty store, the channel is closed once, nobody reconciles before, and every reachable store has sound indexes and an exact domain index |
| `Startup.StoreIsHistory` | cmd/main.go:469-484 | Every reachable store is what the ordinary operations of the history, one after the other, make of an empty store |
| `Startup.UngatedFillBreaksIndex` | internal/controller/virtualservice_controller.go:60 | What the gate prevents: a bulk load over a service set before leaves the UID index unsound |
| `Templates.Append` | internal/store/optimized.go:179-203 | Go append on a slice: the list grows by one at its end, in the same backing array or in a fresh one |
| `Templates.RemoveAt` | internal/store/optimized.go:205-227 | The in-place shift of the backing array removes exactly one position and keeps the order |
| `Templates.TemplateIndex.Update` | internal/store/optimized.go:179-203 | In place on the backing array: appends unless the UID is already listed, lists of other templates untouched |
| `Templates.TemplateIndex.Remove` | internal/store/optimized.go:205-227 | In place on the backing array: takes out the entry with the UID, lists of other templates untouched |
| `Templates.TemplateIndex.Get` | internal/store/optimized.go:1386-1397 | Hands out a fresh array with the contents of the list |
| `Templates.TemplateIndex.Copy` | internal/store/optimized.go:294-296 | A deep copy: equal lists, no backing array shared |
| `Store.NewOptimizedStore` | internal/store/optimized.go:72-117 | An empty store, in memory of its own |
| `Store.OptimizedStore.SetVirtualService` | internal/store/optimized.go:126-147 | The store changes as the model says, everything else in it is unchanged |
| `Store.OptimizedStore.DeleteVirtualService` | internal/store/optimized.go:165-176 | Likewise; deleting an unknown name changes nothing |
| `Store.OptimizedStore.SetVirtualServiceStatus` | internal/store/optimized.go:1607-1610 | The status of that name and nothing else is written |
| `Store.OptimizedStore.DeleteVirtualServiceStatus` | internal/store/optimized.go:1635-1637 | The status of that name and nothing else is removed |
| `Store.OptimizedStore.SetCluster` | internal/store/optimized.go:418-444 | The store changes as the model says, including the old name and UID of a replaced cluster |
| `Store.OptimizedStore.DeleteCluster` | internal/store/optimized.go:769-781 | Likewise for deletion |
| `Store.OptimizedStore.SetSecret` | internal/store/optimized.go:980-1001 | The secret and the domain index change as the model says |
| `Store.OptimizedStore.DeleteSecret` | internal/store/optimized.go:1011-1019 | Likewise for deletion |
| `NodeDomains.NodeDomainIndex.Copy` | internal/store/optimized.go:377-383 | The two nested loops copy the index, whatever inner sets it shares, into memory of its own |
| `NodeDomains.NodeDomainIndex.ForNodes` | internal/store/optimized.go:1471-1491 | Deep copies for exactly the known nodes asked for; the unknown ones in the order asked, repeats included |
| `NodeDomains.WithoutCounts` | internal/store/optimized.go:1471-1491 | The unknown nodes are reported as often as asked for |
| `NodeDomains.WithoutConcat` | internal/store/optimized.go:1471-1491 | And in the order asked |
| `Store.OptimizedStore.ReplaceNodeDomainsIndex` | internal/store/optimized.go:1442-1454 | The store takes over the contents of the index given, whatever it shares, and none of its memory |
| `Store.OptimizedStore.GetNodeDomainsIndex` | internal/store/optimized.go:1456-1469 | Hands out the contents of the index in memory of its own, inner sets included |
| `Store.OptimizedStore.GetNodeDomainsForNodes` | internal/store/optimized.go:1471-1491 | Likewise for the nodes asked for, with the list of unknown ones |
| `Store.OptimizedStore.MapSpecClusters` | internal/store/optimized.go:1400-1409 | Hands out the spec-name index as a map of its own |
| `GoMaps.GoMap.Copy` | internal/store/optimized.go:287-367 | The copying loop over a map, in any order: equal entries in a new map |
| `ServiceMaps.StatusStorage.Copy` | internal/store/virtualservice_status.go:90-103 | A new storage with a new map and the same statuses |
| `Store.OptimizedStore.GetVirtualServiceByUID` | internal/store/optimized.go:157-163 | In every good state the answer is a stored service with the UID; on a complete index, none only if none exists |
| `Store.OptimizedStore.GetSpecCluster` | internal/store/optimized.go:1378-1382 | In every good state the answer is a stored cluster with the spec name; on a complete index, none only if none exists |
| `Store.OptimizedStore.GetVirtualServicesByTemplate` | internal/store/optimized.go:1386-1397 | A fresh list: on complete lists exactly the stored services using the template, each once |
| `Store.OptimizedStore.BestFor` | internal/store/optimized.go:1272-1276 | On an exact index, the winner of a scan of all stored secrets, with its class |
| `Store.OptimizedStore.GetDomainSecretWithWildcardFallbackInfo` | internal/store/optimized.go:1294-1358 | In every good state, at any two clock readings: what the fallback guarantees about the stored secrets holds of the answer, and every field follows the decision between the winner for the domain and the winner for its wildcard |
| `Store.OptimizedStore.FillFromKubernetes` | internal/store/optimized.go:605-751 | The loops over the arrived lists and the final rebuild compute the bulk load of the model |
| `Store.OptimizedStore.UpdateDomainSecretsMap` | internal/store/optimized.go:1562-1602 | The domain index becomes the one rebuilt from the stored secrets |
| `Store.OptimizedStore.Copy` | internal/store/optimized.go:232-386 | A store that reads the same and shares no map, list, status storage or inner set with the original |
| `Store.OptimizedStore.Perform` | internal/store/optimized.go:126-1019 | Any operation in memory refines its step on values |
| `Independence.Interleave` | internal/store/optimized.go:232-386 | Two stores and two node-domain indexes held by users, sharing no memory: in any interleaving of operations and of writes by the users, each store ends as if nothing else were there, and an index changes only by its holder's writes |
| `Independence.CopyIsIndependent` | internal/store/optimized.go:232-386 | A store that took over an index, and its copy, from any state and for any script: neither sees anything but its own operations; a template list and a map handed out before keep their contents; the index given and the one handed out change only by their holders' writes |
| `StringPool.RunInv` | internal/store/string_pool.go:34-62 | In every interleaving of calls and evictions: one writer at most, every obtained reference was in the pool when it was obtained, all counters accounted for |
| `StringPool.SameReference` | internal/store/string_pool.go:34-62 | Two finished calls for one string that looked between the same two evictions returned the same reference |
| `StringPool.ReturnsEqualString` | internal/store/string_pool.go:34-79 | In every interleaving a finished call returns a reference brought by some call for the same string; only the empty string and the default namespace interned as one skip the pool |
| `StringPool.Accounting` | internal/store/string_pool.go:34-62 | Whenever the write lock is free, misses are the entries stored plus the entries ever evicted; hits and misses count the finished calls once each |
| `StringPool.CleanupPool` | internal/store/string_pool.go:134-156 | Over the limit half the limit, rounded down, is kept unchanged and the number removed is returned; otherwise nothing happens |
| `StringPool.CleanupIsStep` | internal/store/string_pool.go:134-156 | The loop does what a cleanup step of the protocol does |
| `StringPool.ClearEmpties` | internal/store/string_pool.go:89-93 | Clearing empties the pool and touches no counter |
| `Registry.Registry.Set` | internal/xds/clients/registry.go:19-23 | Registers any client under any id |
| `Registry.Registry.Update` | internal/xds/clients/registry.go:25-35 | An unknown id is registered; otherwise node and version are written into the registered client, visible under every id it is registered under, the address kept |
| `Registry.Registry.Delete` | internal/xds/clients/registry.go:37-41 | Forgets that client only |
| `Registry.Registry.List` | internal/xds/clients/registry.go:43-54 | One value per registered id, in order of the ids inside; where clients lie under their own ids, every client once and strictly increasing |
| `Registry.Callbacks.Handle` | internal/xds/callbacks.go:48-93 | Each stream event changes the registered clients as the model says |
| `Registry.Callbacks.HandleAll` | internal/xds/callbacks.go:48-137 | So does every sequence of events |
| `Registry.RegistryIsHistory` | internal/xds/callbacks.go:48-137 | After any events an id is registered exactly when a delta-open or a request came after its last close; its address, node and version are those of the last such open and request |
| `NodeIds.ReadEntries` | api/v1alpha1/virtualservice_methods.go:22-38 | The loop with its seen-set returns the trimmed entries without repeats |
| `NodeIds.ObjectMeta.GetNodeIDs` | api/v1alpha1/virtualservice_methods.go:22-38 | The list the annotation stands for; a missing or empty annotation stands for none |
| `NodeIds.ObjectMeta.SetNodeIDs` | api/v1alpha1/virtualservice_methods.go:40-48 | Only the node-ID annotation changes; an empty list removes it; panics exactly when a non-empty list meets a nil map |
| `NodeIds.SetOnlyNodeIDs` | api/v1alpha1/virtualservice_methods.go:40-48 | Every other annotation is kept; an empty list takes the node-ID annotation away |
| `NodeIds.DedupKeepsOrder` | api/v1alpha1/virtualservice_methods.go:22-38 | Dropping repeats keeps first occurrences in their order |
| `NodeIds.ReadBack` | api/v1alpha1/virtualservice_methods.go:22-48 | For any list at all, what reading back a written list gives |
| `NodeIds.RoundTrip` | api/v1alpha1/virtualservice_methods.go:22-48 | For trimmed IDs without commas reading back gives the list without repeats, if and only if the list is not one empty ID |
| `NodeIds.RereadIsFixedPoint` | api/v1alpha1/virtualservice_methods.go:22-48 | Writing back what was read is a fixed point, if and only if what was read is not one empty ID |

## Left out

- MergeEngine.JSONRawMessages: documents are already-parsed trees. The JSON text itself, precision of numbers, invalid UTF-8 and encoding errors are not modelled, and array items count as equal when their trees are, which stands for equal encodings.
- MergeEngine.MergeMaps: arrays are values, because the engine never changes an array or anything below one.
- Selection.GetBestSecretWithValidity: the clock is a parameter, as everywhere else.
- Secrets.ParseCertificateNotAfter: PEM and X.509 parsing is abstracted to a list of blocks that parse or do not.
- Clusters.AdmissionIsScan: unmarshalling and validation of a cluster spec are two given facts about it.
- BulkLoad.FillIsReplay: the listed services and clusters have distinct keys that are not stored yet, which is what one list of the API server gives to a new store.
- Store.OptimizedStore.FillFromKubernetes: begins when the lists have arrived; listing errors are not modelled.
- Store.OptimizedStore.SetVirtualService: interning of names is the identity on values, and stored objects are values, so changing a stored object from outside is not modelled.
- StringPool.Accounting: counters are unbounded; wrap-around of the 64-bit counters is not modelled.
- Registry.Callbacks.Handle: request and response counters, the signal channel, logging and the version formatting are not modelled; a request carries a node.
- The other resource kinds of the store (listeners, routes, filters, policies, access logs, tracings, templates): they repeat the set, delete and UID index of clusters.
- FillFromTemplate around the merge (extra fields, text templates, decoding into the live spec): only the merge is modelled.
- The resource builder, snapshot updater, caches, gRPC and REST services and the other webhooks.
- Startup.ProcessInv: the webhooks, which only read the store, and the end of the process on a listing error are not steps.
- The locks of the store: every store operation is one atomic step.
- Domain pattern validation: its outcome is only logged.
