# A verified model of the WiseLabz backend's core protocols

A Dafny model of the parts of the backend whose promises span several functions
or a whole run of the system, with proofs of those promises.

* **Document ownership** (`Lines`, `Blocks`, `Layout`, `Generated`, `Merge`,
  `MergeLaws`, `Placement`, `Sync`, `Fixpoint`, `SyncLimits`, `FreshRenders`,
  `Stripping`, `SlugKeys`, `Ownership`, `Decisions`, `Reviews`, `Engine`). A document is human text with hashed,
  generated blocks in it. It is parsed, merged with a fresh render, written back
  under a version check, and conflicts go to a user. Proved: parsing loses nothing;
  merging loses no human work and puts each new block behind its nearest
  predecessor; for any document and any render, sync is a fixpoint
  on text exactly when taking out vanished blocks does not close up human text into
  a block and no new key has two different blocks in the render; over every run of
  saves, syncs and decisions, what is deleted stays deleted, a concurrent save wins,
  and no sync and no kept conflict loses a piece of human work.
* **Identities and topology** (`Linking`, `UnionFind`, `Ordering`,
  `SortedStrings`, `Identities`, `Clusters`, `Topology`, `Observations`,
  `EdgeLaws`). Union-find with path compression computes exactly the closure of strong matches and merge overrides,
  in one canonical order; persisted edges do not depend on which connector is
  rebuilt, and are exactly those the entities' own fields call for.
* **Vector cache** (`VectorCache`, `CacheProtocol`, `CacheReaders`). The
  list-and-map cache is a bounded recency list, and a generation counter keeps it coherent with the
  database under every interleaving of readers and writers; an undisturbed
  retrieval cannot tell that there is a cache.
* **Network discovery** (`Ranges`, `ScanTargets`, `ScanLifecycle`, `ScanSafety`,
  `ScanRecords`, `ScanPorts`, `ScanManager`, `StartLimit`). Every goroutine step of a scan is an event; the
  address budget, the counters, the lifecycle and the meaning of "partial" hold
  in every reachable state, and what is found stays found.
* **Import, rules, notifications** (`ImportTree`, `ImportLayout`, `DocTree`,
  `Compliance`, `Notifications`). Imported notes form a forest the backup check
  accepts, below their directories and in the scopes they name; the hash join is the
  nested loop; one notification per incident, and exactly when.

Conventions. `HashBody` is any function from text to twelve hex digits. Case
folding is any one function, used where the source has `EqualFold` and where it
has `ToLower`. Strings are sequences of characters. Counters are unbounded. A
class models an object the source updates in place; its methods are proved equal
to functions of the old state, and the laws are proved of those functions.

Where the code and its comments differ, the model follows the code:

* `slugKeys` says keys are unique; titles "A", "A", "A 2" give `a-2` twice
  (`SlugKeys.DuplicateKeyExample`), and uniqueness holds exactly when no title's
  slug looks like another's numbered key (`SlugKeys.KeysUniqueExactly`).
* A block is meant to change only when its render or a person changes it; but an
  opening marker typed by a person can be joined to a later closing marker once a
  block between them is removed (`SyncLimits.StrayOpenerBreaksFixpoint`), and when
  a render has one key twice with different blocks the first is inserted and the
  next sync replaces it by the last (`SyncLimits.DuplicateKeyBreaksFixpoint`).
  `Fixpoints.SyncIsFixpointExactly` says exactly when neither happens;
  `Fixpoints.SettledByTwo` that after a clean cut the second sync is the last.
* A stripped render is said to equal the plain preview; it does exactly when the
  render is not empty and no body holds a legacy topology comment
  (`Stripping.StrippedRenderIsPreview`).
* A rule is said to notify once per incident; an entity with neither external id
  nor name is stored with a NULL reference, always counts as vanished, and is
  announced by every evaluation (`Notifications.UnnamedEntityRepeats`).
* "Partial" is meant to say that the deadline cut a scan short; with no port to
  probe nothing is ever done, and a completed scan is marked exactly when its
  deadline had fired (`ScanPorts.WithoutPorts`). That it means "some address was
  not scanned" in every run holds if and only if there is a port to probe
  (`ScanPorts.PartialIsExactIffPorts`).
* The clustering's features are meant to mirror `strongMatchReason`; they agree on
  a pair exactly when its kinds and external ids are not confused by a NUL
  character, or it has a name in common anyway (`Linking.FeaturesAreStrongMatch`,
  `Linking.NulInKindBreaksFeatures`).
* Links are collected once per pair of observations, but an observation's key joins
  its fields by bars, so an external id that reads like another host's fields hides
  that host's links (`Observations.BarInIdLosesLink`); no link is lost if and only if
  no two different links have one key (`Observations.NoLinkIsLostExactly`).
* The bundle's parent check refuses some documents whose links form a forest
  (`DocTree.DuplicateIdIsRefused`): exactly those in which a document's own id lies
  among its ancestors (`DocTree.AcceptsExactly`), which needs an id that occurs
  twice.

## Model

| member | source | states |
|---|---|---|
| `Blocks.MatchOpenMarker` | backend/internal/doc/blocks.go:19-21 | The opening-marker pattern recognises every marker made of a valid key and hash, with exactly that key and hash |
| `Blocks.ParseIsLossless` | backend/internal/doc/blocks.go:56-115 | Rendering the parse of any string gives that string back, unclosed, nested, empty and CRLF markers included |
| `Blocks.ParseBlocks` | backend/internal/doc/blocks.go:56-95 | The two scanning loops end and compute the line-based parse, and rendering the result restores the input |
| `Blocks.ScanClose` | backend/internal/doc/blocks.go:66-80 | The inner scan finds the first closing line with no opening line before it, and the body in front of it, or reports that there is none |
| `Layout.ReparseFinds` | backend/internal/doc/blocks.go:56-115 | Rendered segments whose blocks stand on their own lines read back as those blocks and, in reading order, the blocks hidden in the text between them |
| `Layout.ReparseExactly` | backend/internal/doc/blocks.go:56-115 | So they read back as the same blocks if and only if no gap of text between them holds a block of its own |
| `Layout.ReparseGaps` | backend/internal/doc/blocks.go:56-115 | In that case the text between the blocks also reads back unchanged |
| `Layout.ParseUndoesRender` | backend/internal/doc/blocks.go:56-115 | Parse undoes render on every canonical, well laid out list of segments |
| `Generated.NeutraliseIsTagFree` | backend/internal/doc/blocks.go:32-35 | No marker tag is left in a neutralised body |
| `Generated.NeutraliseExactly` | backend/internal/doc/blocks.go:32-35 | Neutralising changes nothing but the colons of marker tags, each of which becomes a dash |
| `Generated.NewBlockIsSound` | backend/internal/doc/blocks.go:32-45 | A new block can be read back, counts as unedited, and building it again from its own body changes nothing |
| `Merging.BlockIndex` | backend/internal/doc/merge.go:82-89 | The first block with the key, or -1 when there is none |
| `Merging.MergeExisting` | backend/internal/doc/merge.go:21-56 | The first loop refreshes, keeps, detaches or drops each block, collects the conflicts and knows which keys remain |
| `Merging.FindAnchor` | backend/internal/doc/merge.go:57-67 | The climb ends at the right place: directly behind the first block of the nearest preceding render entry that the document has, however many lie between, and at the end exactly when there is none |
| `Merging.AnchorIsRightPlace` | backend/internal/doc/merge.go:57-67 | The same of the place every law below is about, for any document and render |
| `Placement.NewBlocksStand` | backend/internal/doc/merge.go:57-80 | With distinct keys, in the merged document itself: every new block follows the first block of its nearest present predecessor, with only blocks newer than that between, or everything that was kept |
| `Placement.InsertWrites` | backend/internal/doc/merge.go:68-78 | The text an insertion writes: the block set off by a blank line, and ended by a newline at the end of the document, everything around it as it was |
| `Merging.Merge` | backend/internal/doc/merge.go:21-80 | The imperative merge computes the merge and the conflicts the laws below are about |
| `MergeLaws.MergeKeepsHumanWork` | backend/internal/doc/merge.go:34-79 | All human text and the body of every edited block survive verbatim and in order; only blank separators are added |
| `MergeLaws.MergeKeyCount` | backend/internal/doc/merge.go:34-79 | How often a key occurs after merging: never if it is not rendered, once if it was absent and not in the previous keys, otherwise as often as before |
| `MergeLaws.MergedIsSettledExactly` | backend/internal/doc/merge.go:34-79 | For any render: after merging every block is the one the render's index holds or an edited one, if and only if the first block of each new key is the indexed one |
| `MergeLaws.MergedIsSettled` | backend/internal/doc/merge.go:34-79 | In particular for distinct keys |
| `MergeLaws.MergeOfSettled` | backend/internal/doc/merge.go:34-79 | Merging a settled document with the same render and its keys changes nothing |
| `MergeLaws.MergeKeepsConflicts` | backend/internal/doc/merge.go:34-56 | The merged document has exactly the conflicts of the original one |
| `MergeLaws.ConflictsExactly` | backend/internal/doc/merge.go:34-56 | What each conflict carries: an edited block of the document, the body the person left and the last block of the render with its key, whose hash differs |
| `Ownership.ConflictMember` | backend/internal/doc/merge.go:34-56 | A key is in conflict if and only if some block with that key was edited and its freshly generated hash differs |
| `Sync.ParseLaysOut` | backend/internal/doc/blocks.go:56-95 | Whatever is parsed has its blocks on their own lines and no block hidden in its text |
| `Sync.MergeLaysOut` | backend/internal/doc/merge.go:34-80 | After any merge every block is on its own lines, and the text between blocks hides a block exactly when the cut was not clean |
| `Sync.CleanCutWhen` | backend/internal/doc/merge.go:34-80 | The cut is clean when human text has no opening-marker line, and when no block vanished upstream |
| `Sync.MergeReparsesExactly` | backend/internal/doc/ownership.go:109-153 | The merged document reads back as the merged blocks if and only if the cut was clean, and then its text does too |
| `Fixpoints.SyncAgainExactly` | backend/internal/doc/ownership.go:109-153 | A sync with the keys of its own render leaves any text as it is, character for character, if and only if every block of the text is settled |
| `Fixpoints.SyncIsFixpointExactly` | backend/internal/doc/ownership.go:109-153 | For any content and any render, repeated keys included: written text reads back, a second sync writes the identical string and finds the same conflicts, if and only if the cut is clean and the first block of each new key is the indexed one |
| `Fixpoints.SyncRepeatsExactly` | backend/internal/doc/ownership.go:109-153 | The identical string and the same conflicts alone, if and only if the first block of each new key is the indexed one and every block the cut brings to light is settled and not in conflict |
| `Fixpoints.SettledByTwo` | backend/internal/doc/ownership.go:109-153 | After a clean cut the second sync is the last that changes anything, even with repeated keys |
| `Fixpoints.SyncIsFixpoint` | backend/internal/doc/ownership.go:109-153 | In particular for distinct keys with no stray opening marker, or when nothing vanished |
| `Sync.SyncKeepsTextClean` | backend/internal/doc/ownership.go:109-153 | A sync never brings a stray opening marker into human text |
| `SyncLimits.StrayOpenerBreaksFixpoint` | backend/internal/doc/merge.go:34-56 | The given document with a stray opening marker, for which the text of one sync and of two differ |
| `SyncLimits.DuplicateKeyBreaksFixpoint` | backend/internal/doc/merge.go:22-33 | Two different blocks with one key, merged into nothing: the first is inserted, the second merge puts the last in its place, the third changes nothing |
| `FreshRenders.RenderFresh` | backend/internal/doc/blocks.go:119-131 | The builder loop writes the blocks separated by blank lines and ended by a newline |
| `FreshRenders.RenderSegments` | backend/internal/doc/blocks.go:105-115 | The builder loop writes the rendering the laws are about |
| `FreshRenders.FreshParses` | backend/internal/doc/blocks.go:56-131 | Parsing a fresh render returns exactly its blocks |
| `FreshRenders.MergeIntoEmpty` | backend/internal/doc/merge.go:57-78 | Merging into an empty document gives the fresh render, as segments and as text, if and only if no key occurs twice |
| `FreshRenders.RefreshUntouched` | backend/internal/doc/ownership.go:109-153 | Refreshing an untouched document with the same key list raises no conflict, and gives the new fresh render if and only if blocks with one key are equal in it |
| `Stripping.StripMarkers` | backend/internal/doc/blocks.go:163-190 | The loop returns the text and block bodies of the content without its legacy topology comments |
| `Stripping.StripsNothing` | backend/internal/doc/blocks.go:163-174 | Removing legacy topology comments changes a text if and only if it holds one |
| `Stripping.StripsExactly` | backend/internal/doc/blocks.go:163-174 | A comment goes with its blanks, the newline before it and the one right behind it; text before it and after it stays |
| `Stripping.StrippedRenderIsPreview` | backend/internal/doc/engine.go:56-67 | A fresh render without its markers equals the plain preview if and only if it is not empty and no body holds a legacy topology comment |
| `SlugKeys.SlugKeys` | backend/internal/doc/blocks.go:142-161 | The i-th key is the prefix and the slug, numbered by how often the slug occurred before |
| `SlugKeys.SlugIsWords` | backend/internal/doc/blocks.go:133-161 | A slug is the runs of letters and digits of the lowered title joined by single dashes, or "section" when there are none |
| `SlugKeys.SlugKeyIsValid` | backend/internal/doc/blocks.go:142-161 | Whatever the titles, every key matches the marker's key alphabet |
| `SlugKeys.KeysUniqueExactly` | backend/internal/doc/blocks.go:142-161 | Keys are unique if and only if no slug equals another slug's numbered form |
| `SlugKeys.DuplicateKeyExample` | backend/internal/doc/blocks.go:142-161 | Titles "A", "A", "A 2" give the keys `a`, `a-2` and `a-2` |
| `Ownership.CreatedIsOk` | backend/internal/doc/engine.go:191-213 | A newly generated document satisfies the invariant of the runs below, and all its keys are remembered |
| `Ownership.RunKeepsInvariant` | backend/internal/doc/ownership.go:57-278 | Over every run of saves, syncs (of any renders, repeated keys included) and decisions, each version written by sync is the merge of exactly its predecessor, and each pattern has at most one open change, its latest |
| `Ownership.SyncVersionsKeepHumanWork` | backend/internal/doc/ownership.go:109-153 | In every reachable history, a version written by sync holds all human work of the version before it |
| `Ownership.ConcurrentSaveWins` | backend/internal/doc/ownership.go:131-138 | If anyone saves between a sync's read and its write, whatever else happens in between, the sync changes neither content nor version nor history |
| `Ownership.DeletedStaysDeleted` | backend/internal/doc/ownership.go:109-153 | While every render has its key, no sync of a run adds a block the user deleted or detached |
| `Ownership.SaveStartsRemembering` | backend/internal/doc/ownership.go:109-153 | Deleting a rendered block by a save is remembered even while a sync is in flight |
| `Ownership.RaiseOk` | backend/internal/doc/ownership.go:192-225 | Raising a change keeps at most one open change per pattern |
| `Ownership.ReplaceReparses` | backend/internal/doc/ownership.go:229-278 | Replacing one block by another keeps every other block and all text readable, whatever the text holds |
| `Ownership.AcceptSettles` | backend/internal/doc/ownership.go:229-278 | After accepting a proposal, a render conflicts on that key if and only if another block with that key was edited too and its upstream hash differs |
| `Engine.StoredDoc.SyncDoc` | backend/internal/doc/ownership.go:109-153 | The sync's write, touch and raise sequence is one sync step of the runs above |
| `Engine.StoredDoc.UpgradeLegacyDoc` | backend/internal/doc/ownership.go:159-185 | A document without recorded keys is overwritten only if no person wrote it last, otherwise proposed for adoption |
| `Engine.StoredDoc.RaiseDocChange` | backend/internal/doc/ownership.go:192-225 | Drops a repeat of the latest proposal, dismisses an outdated open one, appends the new one |
| `Engine.StoredDoc.ResolveChange` | backend/internal/doc/ownership.go:229-278 | A decision acknowledges the change and rewrites the block, or leaves everything as it was; what is written is in the history the laws on decisions are about |
| `Decisions.DecisionsKeepHumanWork` | backend/internal/doc/ownership.go:229-278 | In every reachable history, a version that kept a conflict has all human work of the version before it, the body verbatim in its place; one that accepted it has all but the block it replaced |
| `Decisions.KeptPieces` | backend/internal/doc/ownership.go:256-264 | Keeping puts the body as text where the block stood; an edited body and all human work around it survive in order |
| `Decisions.KeepReparsesExactly` | backend/internal/doc/ownership.go:256-265 | The kept document reads back as it was left if and only if the body and the text around it, read together, hold no block |
| `Decisions.KeepSettles` | backend/internal/doc/ownership.go:229-278 | In that case one block fewer has the key, and a render conflicts on it if and only if another block with it was edited too and differs upstream |
| `Reviews.RaiseExactly` | backend/internal/doc/ownership.go:192-225 | A repeat of the latest proposal of its pattern changes nothing; any other ends up open as the last change, and only the latest earlier one is dismissed, if it was open |
| `Reviews.ConflictsAreRaised` | backend/internal/doc/ownership.go:109-153 | After a sync that was not overtaken has raised its proposals, the latest change for every conflict of the document it read is for the text it generated |
| `Reviews.SyncRemembersRender` | backend/internal/doc/ownership.go:109-153 | Such a sync remembers every key of its render |
| `Reviews.LegacyIsHandedOver` | backend/internal/doc/ownership.go:159-174 | A legacy document whose last version is a person's keeps its text and history, becomes the person's, and gets one proposal with both texts |
| `Reviews.LegacyIsUpgraded` | backend/internal/doc/ownership.go:159-185 | One that no person wrote last becomes exactly the render, with all its keys remembered, unless it was written in between |
| `Reviews.LegacyOverwritesNoPerson` | backend/internal/doc/ownership.go:159-185 | In every reachable history a legacy overwrite follows a version without blocks that was not written by a person |
| `Reviews.HumanOwnedStays` | backend/internal/doc/ownership.go:109-278 | Over every run, a document handed to a person is written by people alone until one adopts the generated layout |
| `Reviews.AdoptionExactly` | backend/internal/doc/ownership.go:229-256 | Accepting the layout makes the document exactly that render, under sync, with its keys remembered; declining changes only the status |
| `Reviews.ManagedRefreshes` | backend/internal/doc/ownership.go:109-153 | From then on a refresh with the same keys raises nothing, and leaves exactly the new render if and only if blocks with one key are equal in it |
| `Linking.HostnameMatchIsCommonName` | backend/internal/doc/linking.go:202-229 | Hostnames match exactly when the two entities have a name in common, hostname or alias |
| `Linking.MatchReasonExactly` | backend/internal/doc/linking.go:161-182 | From the entities' own fields: the same external id and kind, else the same address, else a common name, else no match; the strong match leaves the address out |
| `Linking.MatchIsSymmetric` | backend/internal/doc/linking.go:161-182 | The match reason and the strong match reason do not depend on the order of the entities |
| `Linking.StrongIdentityFeatures` | backend/internal/doc/linking.go:186-200 | The loop lists exactly the entity's identity features |
| `Linking.SharedFeatureExactly` | backend/internal/doc/linking.go:174-229 | Two entities share a feature if and only if they match strongly or their different kinds and external ids are the same string once joined by a NUL |
| `Linking.FeaturesAreStrongMatch` | backend/internal/doc/linking.go:174-229 | Features and strong match agree on a pair if and only if it is not so confused or has a name in common |
| `Linking.ConfusionNeedsNul` | backend/internal/doc/linking.go:186-200 | Only a NUL character inside a kind can confuse two entities |
| `Linking.NulInKindBreaksFeatures` | backend/internal/doc/linking.go:186-200 | Two given entities share a feature and do not match |
| `UnionFind.Forest.Root` | backend/internal/doc/identities.go:97-103 | Finding a root with path compression ends, returns the representative and keeps all representatives |
| `UnionFind.Forest.Join` | backend/internal/doc/identities.go:104-109 | Joining moves exactly one class to the other's representative and keeps the links acyclic |
| `Identities.RepsAreClosure` | backend/internal/doc/identities.go:86-158 | When every link is joined and nothing else, representatives agree exactly on connected members |
| `Identities.JoinFeature` | backend/internal/doc/identities.go:119-142 | The star joins of one feature put together all members that share it across connectors, and only connected ones |
| `Identities.ApplyMerges` | backend/internal/doc/identities.go:143-158 | Merge overrides with both ends present are joined, others ignored |
| `Clusters.IdentityClusters` | backend/internal/doc/identities.go:86-174 | The result lists the classes of the closure, each sorted, in key order |
| `Clusters.AutoLinkIsStrongMatch` | backend/internal/doc/identities.go:110-118 | The automatic links are exactly the strong matches, and the pairs confused by a NUL, between members of two connectors that were not detached |
| `Clusters.AutoLinkExactly` | backend/internal/doc/identities.go:110-142 | From the members' own fields: two connectors, neither end detached, and kind and external id alike or a hostname or alias in common |
| `Clusters.MergedAreTogether` | backend/internal/doc/identities.go:143-158 | The two members of a merge override share a cluster, detached or not |
| `Clusters.DetachedIsAlone` | backend/internal/doc/identities.go:86-118 | A detached member that no merge override names is a cluster of its own |
| `Clusters.MemberKeyExactly` | backend/internal/doc/identities.go:76-78 | Without a NUL in connector or kind, a key stands for exactly the connector, the kind and the reference |
| `Clusters.SameClusterIffConnected` | backend/internal/doc/identities.go:86-174 | Two members share a cluster if and only if a chain of cross-connector strong matches or merge overrides connects them |
| `Clusters.ClusteringIsUnique` | backend/internal/doc/identities.go:86-174 | There is one such result, so map iteration order cannot change it |
| `Topology.CollectLinks` | backend/internal/doc/linking.go:43-109 | For each pair of dedup keys with a match, exactly the link of the first matching pair of entities |
| `Topology.AllLinksAreFirst` | backend/internal/doc/linking.go:43-109 | When no two pairs have one dedup key, that is every matching pair |
| `Observations.NoLinkIsLostExactly` | backend/internal/doc/linking.go:69-109 | For any snapshots, every matching pair is collected if and only if no two different links have one dedup key |
| `Observations.DedupExactly` | backend/internal/doc/linking.go:231-237 | Without bars in the fields, two observations share a dedup key if and only if they are of one connector and kind with the same external id, or with none and the same name, address and hostname |
| `Observations.PlainWorldIsWorld` | backend/internal/doc/linking.go:69-109 | Without bars in the fields, and with no connector observing anything twice, no two pairs have one dedup key |
| `Observations.BarInIdLosesLink` | backend/internal/doc/linking.go:231-237 | Two given hosts with one dedup key, the second of which is never linked |
| `Topology.BuildIpGroups` | backend/internal/doc/linking.go:43-109 | The entities gathered for an address are its own connector's and everyone else's, each once |
| `Topology.GroupIsSymmetric` | backend/internal/doc/linking.go:43-109 | An address has the same group of entities whichever connector is rebuilt |
| `Topology.AllowedByIp` | backend/internal/doc/linking.go:122-137 | Maps exactly the over-full addresses to their first fifty entities in key order |
| `Topology.CapIpOnlyLinks` | backend/internal/doc/linking.go:122-157 | In their order, exactly the links that are strong, or whose address is not over-full, or whose two ends are among its first fifty entities stay |
| `Topology.StrongMatchesAreEdges` | backend/internal/doc/linking.go:116-157 | The cap never drops a strong match: any two strongly matching entities of two connectors are joined by an edge of either rebuild |
| `Topology.AddSameAsEdges` | backend/internal/doc/topology.go:75-88 | For any snapshots, the rebuild of a connector adds exactly the `same_as` edges of the collected links that survive the cap |
| `Topology.AllAreCollected` | backend/internal/doc/topology.go:75-88 | When no two pairs have one dedup key, these are the edges of all matches within the cap |
| `Topology.SameAsEdgesIndependentOfSide` | backend/internal/doc/topology.go:75-88 | The `same_as` edges with one end in each of two connectors that the rebuild of one adds are exactly those the rebuild of the other adds |
| `Topology.AddResolvesToEdges` | backend/internal/doc/topology.go:214-247 | Adds exactly the edges from this connector's DNS entities and into its other entities |
| `Topology.ResolvesIndependentOfSide` | backend/internal/doc/topology.go:214-247 | Between two connectors, the `resolves_to` edges and their owners are the same from either rebuild |
| `Topology.EdgeBuilder.Add` | backend/internal/doc/topology.go:455-488 | An edge is appended unless an equal one is there |
| `EdgeLaws.AllowedExactly` | backend/internal/doc/linking.go:122-137 | A key of an over-full address is allowed if and only if fewer than fifty keys of the address sort before it |
| `EdgeLaws.SurvivesExactly` | backend/internal/doc/linking.go:139-157 | A match survives the cap if and only if it has an identity or a name in common, or its address has at most fifty entities, or fewer than fifty precede each end |
| `EdgeLaws.SameAsEdgesExactly` | backend/internal/doc/topology.go:75-88 | A rebuild stores exactly the edges of the pairs that are so joined by their own fields, with the reason and the direction |
| `EdgeLaws.SharedAddressIsAnEdge` | backend/internal/doc/linking.go:116-157 | Two entities of two connectors at one address of at most fifty entities are joined by an edge of either rebuild |
| `EdgeLaws.ResolvesExactly` | backend/internal/doc/topology.go:214-247 | A `resolves_to` edge leads from a DNS record or rewrite to an entity that is neither, when they have an identity, an address or a name in common |
| `VectorCache.Cache.Get` | backend/internal/chat/vectorcache.go:46-55 | Returns the vector for the key, moves it to the front and keeps everything else |
| `VectorCache.Cache.Put` | backend/internal/chat/vectorcache.go:58-75 | Stores only under the current generation; list and map stay in step and within the limit |
| `VectorCache.Cache.InvalidateDoc` | backend/internal/chat/vectorcache.go:78-88 | Removes exactly the document's entries, keeps the order of the rest and starts a new generation |
| `VectorCache.StoredKeepsRecent` | backend/internal/chat/vectorcache.go:58-75 | A stored key is the most recent, and of the others at most the least recently used one goes |
| `VectorCache.DroppedMember` | backend/internal/chat/vectorcache.go:78-88 | What invalidation leaves is exactly the entries of other documents |
| `CacheProtocol.EmptyIsCoherent` | backend/internal/chat/vectorcache.go:32-34 | A new cache is coherent with any database |
| `CacheProtocol.RunIsCoherent` | backend/internal/chat/chat.go:96-186 | Over every interleaving of readers and writers, a cached vector is the stored one unless a writer of its document has written and not yet invalidated |
| `CacheProtocol.HitsAreCurrent` | backend/internal/chat/chat.go:153-186 | A hit on a document with no pending writer returns the stored vector |
| `CacheProtocol.QuietCacheIsCurrent` | backend/internal/chat/chat.go:96-140 | Once every writer has invalidated, the whole cache is part of the database |
| `CacheReaders.OneResultPerRow` | backend/internal/chat/chat.go:160-181 | Whatever is interleaved, a finished retrieval has one result per row of its query, in order and under the same key |
| `CacheReaders.QuietRetrieveIsTransparent` | backend/internal/chat/chat.go:160-181 | With no invalidation since it began and no pending writer, its results are the vectors of its rows and of the database |
| `CacheReaders.MissIsCachedExactly` | backend/internal/chat/vectorcache.go:57-75 | A missed vector can be looked up from then on if and only if no invalidation came between |
| `CacheReaders.HitMovesToFront` | backend/internal/chat/vectorcache.go:46-55 | A lookup finds exactly the cached keys and moves the one found to the front, the others keeping their order |
| `StartLimit.Limiter.PruneStarts` | backend/internal/discovery/manager.go:386-393 | Drops exactly the leading start times outside the window |
| `StartLimit.Limiter.Start` | backend/internal/discovery/manager.go:256-269 | Refuses while a scan runs or the window is full, otherwise takes a slot |
| `StartLimit.WindowNeverOverfull` | backend/internal/discovery/manager.go:256-269 | With a clock that never goes back, no window holds more accepted starts than the maximum |
| `StartLimit.AcceptsExactly` | backend/internal/discovery/manager.go:256-269 | After any calls, a start is busy exactly while a scan runs, and otherwise accepted if and only if fewer than the maximum were accepted within the window |
| `StartLimit.RetryAfterIsExact` | backend/internal/discovery/manager.go:256-269 | A refusal uses no slot, and its delay is positive, at most the window, and the least after which a call is accepted |
| `Ranges.AllowedExactly` | backend/internal/discovery/range.go:165-182 | An address of either family is allowed if and only if it has no zone and lies in a private block (section 3 of RFC 1918, section 7 of RFC 6598, fd00::/8), IPv4-mapped ones included |
| `Ranges.PrefixIsAllowed` | backend/internal/discovery/range.go:184-191 | Every address of an aligned prefix that starts in a private block and is no wider is allowed, so none is loopback, link-local, multicast or unspecified |
| `Ranges.ParsedIsAccepted` | backend/internal/discovery/range.go:61-80 | An accepted range is masked, contains the address it was written with, and all its addresses are allowed |
| `Ranges.ParseRangeExactly` | backend/internal/discovery/range.go:61-80 | A range is accepted if and only if it is at least a /22 and every address in it is allowed; it is not private exactly when one is not, and too wide exactly when all are |
| `Ranges.Hosts` | backend/internal/discovery/range.go:121-136 | All addresses in order: 2^(32-n) of them, without the first and last up to a /30 |
| `Ranges.AllHosts` | backend/internal/discovery/range.go:139-152 | The union of the ranges in range and host order, each address once, all of them allowed |
| `Ranges.ParseRanges` | backend/internal/discovery/range.go:84-114 | A list is accepted if and only if it has at most sixteen ranges, each at least a /22 of allowed addresses, with at most 1024 distinct hosts; otherwise the answer names the number of ranges, the first bad range and why, or the number of hosts |
| `ScanTargets.TargetSet.constructor` | backend/internal/discovery/target_set.go:31-40 | Holds the range hosts, up to the budget, as coming from a range |
| `ScanTargets.TargetSet.Admit` | backend/internal/discovery/target_set.go:56-75 | Adds an allowed new address while there is room; the first source of an address stays |
| `ScanTargets.StartTargets` | backend/internal/discovery/manager.go:231-255 | Each wanted inventory address is counted once as admitted or skipped, one is skipped only when the budget is full, and counters add up to the target set |
| `ScanTargets.InventoryIsTargeted` | backend/internal/discovery/manager.go:231-255 | Every permitted inventory address outside the typed ranges is a target unless the budget is full, and together they are the counted and skipped ones |
| `ScanManager.PrepareStart` | backend/internal/discovery/manager.go:227-255 | Refuses an empty request and one over the budget, otherwise starts from a state that satisfies every invariant below |
| `ScanManager.ScanState.constructor` | backend/internal/discovery/manager.go:277-303 | A registered scan is running, counts nothing as done and has the launched state of the model |
| `ScanManager.ScanState.OnProgress` | backend/internal/discovery/manager.go:467-482 | Counters take the larger value while the scan runs |
| `ScanManager.ScanState.AdmitPassive` | backend/internal/discovery/manager.go:749-768 | A first answer of an allowed address is counted, and admitted, known or skipped |
| `ScanManager.ScanState.OnCandidate` | backend/internal/discovery/manager.go:514-526 | Appends a candidate with a new key while the scan runs and is not cancelled |
| `ScanManager.ScanState.OnTlsTarget` | backend/internal/discovery/manager.go:770-785 | Appends a TLS target with a new key and its first source, unless stopped |
| `ScanManager.ScanState.Cancel` | backend/internal/discovery/manager.go:340-354 | The first canceller of a running scan is recorded |
| `ScanManager.ScanState.Shutdown` | backend/internal/discovery/manager.go:366-377 | Marks a running scan that nobody cancelled as cancelled by shutdown |
| `ScanManager.ScanState.Finish` | backend/internal/discovery/manager.go:444-458 | Failed, cancelled or completed, and partial only when the deadline cut a completed scan short |
| `ScanManager.AtMostOneRunning` | backend/internal/discovery/manager.go:256-304 | Whatever starts, callbacks, cancellations and endings are interleaved, at most one scan runs |
| `ScanManager.StartBegins` | backend/internal/discovery/manager.go:256-304 | A permitted start while no scan runs begins a scan on its targets that the manager holds, and changes no other; any other start changes nothing |
| `ScanSafety.RunIsSafe` | backend/internal/discovery/manager.go:395-529 | All invariants hold in every state reachable from a safe one |
| `ScanSafety.BudgetIsConserved` | backend/internal/discovery/manager.go:399-494 | In every reachable state the counts by source add up to the target set and the total, at most 1024; done and answered never exceed the total; an address is skipped only when the budget is full |
| `ScanSafety.SendNeverBlocks` | backend/internal/discovery/manager.go:399-419 | The channel of late hosts always has room for an admitted address |
| `ScanSafety.ReturnedMeansDone` | backend/internal/discovery/scanner.go:142-212 | A scanner that returns on its own has counted every admitted address as done |
| `ScanSafety.PartialIsExact` | backend/internal/discovery/manager.go:444-458 | With ports to probe, a completed scan is marked partial if and only if it left an address out |
| `ScanPorts.WithoutPorts` | backend/internal/discovery/scanner.go:167-169 | Without ports nothing is done in any reachable state, and a completed scan of at least one address is partial if and only if its deadline had fired |
| `ScanPorts.PartialIsExactIffPorts` | backend/internal/discovery/manager.go:444-458 | For any scan with addresses: in all runs a completed scan is partial exactly when an address was left out, if and only if there is a port to probe |
| `ScanSafety.EndedIsFrozen` | backend/internal/discovery/manager.go:467-529 | No event changes a scan that has ended |
| `ScanSafety.RunExtends` | backend/internal/discovery/manager.go:467-529 | Over every run counters and findings only grow, first sources stay, an ended scan is frozen, and a cancelled one finds nothing more and keeps its reason |
| `ScanSafety.KeepsCandidatesKeyed` | backend/internal/discovery/manager.go:514-526 | Candidates and TLS targets never contain a key twice |
| `ScanSafety.KeepsOrigins` | backend/internal/discovery/manager.go:496-512 | Everything found is on an admitted address and carries its first source, also when it was looked up before the lock |
| `ScanSafety.KeepsReasons` | backend/internal/discovery/manager.go:340-384 | At most one of the canceller and the cancel reason is set, and only cancellation, failure or the deadline stops a running scan |
| `ScanRecords.CandidateIsListed` | backend/internal/discovery/manager.go:514-526 | While the scan takes findings a candidate with a new key is listed as it was found |
| `ScanRecords.TlsTargetIsListed` | backend/internal/discovery/manager.go:770-785 | So is a TLS target, with the source of its address |
| `ScanRecords.FoundStaysListed` | backend/internal/discovery/manager.go:496-526 | A candidate committed while the scan takes findings is listed in every state from then on |
| `ScanRecords.OutcomeIsExact` | backend/internal/discovery/manager.go:444-458 | Over every run, an ended scan failed exactly when its runner panicked, and was cancelled exactly when someone did so and it did not fail |
| `ScanRecords.RunReportsAnswers` | backend/internal/discovery/scanner.go:142-212 | Over every run nothing has stopped, each host that answered is in the count the manager has, or that count is on its way |
| `DocTree.CheckChain` | backend/internal/backup/backup.go:288-301 | The loop ends and accepts a document exactly when the walk to its root succeeds |
| `DocTree.ValidateParents` | backend/internal/backup/backup.go:283-302 | Accepts exactly when every document's walk succeeds |
| `DocTree.AcceptsExactly` | backend/internal/backup/backup.go:283-302 | For any list, repeated ids included: the check accepts if and only if the documents form a forest (existing parents in the same scope, no live child under a deleted parent, at most five levels) and none has its own id among its ancestors |
| `DocTree.AcceptsForests` | backend/internal/backup/backup.go:283-302 | With distinct ids it accepts exactly the forests |
| `DocTree.AcceptedPaths` | backend/internal/backup/backup.go:287-302 | Accepted documents have no cycle and no chain of more than five |
| `DocTree.DuplicateIdIsRefused` | backend/internal/backup/backup.go:283-302 | With an id twice, a set whose links form a forest is refused |
| `ImportTree.Planner.Nest` | backend/internal/docimport/plan.go:354-375 | The ancestor climb never misses a parent and ends; a document goes below its directory, to its own connector's root, or beside a directory at the depth limit |
| `ImportTree.Planner.Store` | backend/internal/docimport/plan.go:378-385 | The document is found by key and by id, with its depth |
| `ImportTree.Planner.PlaceAll` | backend/internal/docimport/plan.go:326-348 | Every entry is placed below the last document found under its directory, by the rules, in a tree of at most five levels; every path leads to the last entry found under it |
| `ImportLayout.Folders` | backend/internal/docimport/plan.go:292-298 | Exactly the directories above the notes |
| `ImportLayout.Layout` | backend/internal/docimport/plan.go:292-350 | For any archive: entries for exactly the folders and the notes, each note in one of them with the connector it names; directories first; placed by the rules; and the parent check accepts the tree |
| `ImportLayout.WikiLayout` | backend/internal/docimport/wikijs.go:190-240 | The same for any wiki export |
| `ImportLayout.LayoutIsParentsFirst` | backend/internal/docimport/plan.go:316-324 | Sorted by depth, a set of keys closed under taking directories has every directory before what is in it |
| `ImportLayout.NotesKeepTheirScope` | backend/internal/docimport/plan.go:292-375 | Every note of a layout has exactly one document, in the scope of the connector its front matter names |
| `ImportLayout.ContentsStayBelow` | backend/internal/docimport/plan.go:354-375 | What is in a directory and names no connector of another scope is below the directory's document, or at the depth limit beside it, in its scope; with another connector it is at the root of its own |
| `ImportLayout.TopLevelIsRoot` | backend/internal/docimport/plan.go:354-375 | What is in no directory is a root, in the scope it names or in none |
| `ImportLayout.NotesAreFound` | backend/internal/docimport/plan.go:326-348 | A note is looked up by its path, unless the archive has a folder of that name |
| `ImportTree.PlannedIsAccepted` | backend/internal/docimport/plan.go:292-385 | Every planned tree passes the backup's parent check |
| `Compliance.ClauseTable` | backend/internal/compliance/engine.go:415-431 | The table holds exactly the folded join values of the related entities a clause accepts |
| `Compliance.ClauseViolated` | backend/internal/compliance/engine.go:434-459 | The clause loop, with its branch for an empty join field, finds a violated clause if and only if the nested loop does |
| `Compliance.EvaluateWithRelated` | backend/internal/compliance/engine.go:397-462 | In snapshot order, exactly the selected entities for which some required join is missing or some forbidden one exists; skipped exactly when a connector type is absent |
| `Compliance.ResultsAreMonotone` | backend/internal/compliance/engine.go:397-462 | More related entities only shrink a requires-only result and only grow a forbids-only one, as subsequences |
| `Compliance.RelatedOrderIsIrrelevant` | backend/internal/compliance/engine.go:397-462 | Order and repetition of related entities change nothing |
| `Compliance.OneClauseExactly` | backend/internal/compliance/engine.go:415-459 | With one clause an entity of the rule is reported if and only if its own folded value is missing among those a requires clause accepts, or is among those a forbids clause accepts; an empty field never joins |
| `Compliance.AnyClauseDecides` | backend/internal/compliance/engine.go:434-459 | Several clauses report what the rules with one of them each report |
| `Compliance.ModesDivide` | backend/internal/compliance/engine.go:434-459 | What a clause requires and what it forbids divide the rule's entities between them |
| `Compliance.ResultKeepsOrder` | backend/internal/compliance/engine.go:397-462 | The result lists entities of the snapshot in its order |
| `Notifications.RuleFindings.ResolveExcept` | backend/internal/store/quality.go:134-187 | Keeps exactly the open findings whose entity still matches and has a reference |
| `Notifications.RuleFindings.NotifiedRank` | backend/internal/quality/checker.go:337-347 | The highest severity announced on an open finding |
| `Notifications.RuleFindings.MaybeNotify` | backend/internal/quality/checker.go:660-671 | Announces and marks a finding if and only if it was never announced or its severity outranks its last announcement |
| `Notifications.RuleFindings.EvaluateRule` | backend/internal/quality/checker.go:247-318 | Notifies if and only if there are matches and the severity outranks everything announced on findings that stay open; then every match is covered |
| `Notifications.OncePerIncident` | backend/internal/quality/checker.go:247-318 | Over any sequence of evaluations at one severity, one notifies if and only if it has matches and no referable entity of the previous one still matches |
| `Notifications.OnlyEscalationsInside` | backend/internal/quality/checker.go:294-312 | While an entity keeps matching, a notification needs a higher severity than any since it first matched |
| `Notifications.NotifiesExactly` | backend/internal/quality/checker.go:247-318 | Over any sequence at any severities, an evaluation notifies if and only if it has matches, a known severity, and one above those of all evaluations since which some entity has matched without a break |
| `Notifications.UnnamedEntityRepeats` | backend/internal/store/quality.go:166-187 | An entity without a reference is announced by every evaluation |

## Left out

- HTTP handlers, MCP tools, AI and embedding clients, authentication, configuration and the web interface: plumbing over libraries.
- The SQL store: only the contracts used here (compare-and-set on the version, latest change by pattern, upsert and resolve of findings) appear, as atomic steps whose writes succeed.
- Rendering of templates, snapshots and diagrams: a render is any list of blocks built by `NewBlock`.
- Sockets, TLS probing, multicast, ZIP and Git decoding, link rewriting: input and output.
- Document locks, document creation from templates, and the fields of a document that sync does not read.
- Dependency, containment, proxy and runtime edges of the topology: they only add easy members.
- Ownership.RaiseOk: models reading the latest change and writing the new one as one step, and takes the order of detection times to be the list order.
- Topology.CollectLinks: models the all-pairs form over readable snapshots, because the per-entity form only feeds links in rendered text.
- Topology.EdgeBuilder.Add: keys are the edges themselves, not the NUL-joined string of their fields.
- Clusters.IdentityClusters: requires distinct member keys, which the stored members have.
- VectorCache.Cache.Put: the generation is unbounded and does not wrap at 2^64.
- ScanManager.ScanState.OnProgress: does not model the throttling of progress events.
- ScanManager.ScanState.Cancel: does not model the wait for the scan to wind down, nor `Shutdown`'s.
- StartLimit.Limiter.Start: the scan it registers is modelled by ScanManager.
- Ranges.ParseRanges: the parsing of CIDR text is a parameter.
- Compliance.EvaluateWithRelated: whether an entity meets its conditions and the text of a field are parameters, so operators, regular expressions and date arithmetic are not modelled.
- ImportLayout.Layout: which note supplies a folder's text is a parameter; titles, contents and warnings are left out.
- Notifications.RuleFindings.EvaluateRule: a failed write and a status changed by a user are not modelled, and a notifier is configured.
- SlugKeys.SlugKeys: lower-casing is a parameter; a key's decimal number is written out without padding.
