# Clair: a verified model of how an image is matched with vulnerabilities

Clair decides whether an image is affected by a vulnerability. This Dafny project models the parts
of Clair that carry that decision and proves what they promise, for all inputs and all runs. Check
it with `dafny verify dfyconfig.toml`.

| file | what it models |
|---|---|
| `Lists.dfy` | lists without duplicates and their elements |
| `KeyOrder.dfy` | the order that both version formats are refined to: integer keys padded with zeros, compared lexicographically |
| `VersionText.dfy` | the text primitives of the parsers: digits, `Atoi`, `Itoa`, `TrimSpace`, `Index`, `LastIndex` |
| `DpkgOrder.dfy`, `RpmOrder.dfy` | `verrevcmp` and `rpmvercmp`, each proved equal to the key order |
| `Versions.dfy` | parsing, printing, `Compare` and `InRange` of both formats |
| `CacheProtocol.dfy` | the cache of affected features as a protocol of updater and worker transactions |
| `CacheScans.dfy` | the loops that compute the scans of that protocol and answer from the cache |
| `ProtocolHistory.dfy` | what is in that cache, exactly, from the history of a run |
| `CachedVersions.dfy` | the protocol with Clair's own range test: runs that store valid versions |
| `Models.dfy` | the records shared by worker and updater |
| `Ancestry.dfy` | `computeAncestryLayers` and its closed form |
| `ReportedFeatures.dfy` | what its outcome says about names, versions, namespaces and detectors |
| `LayerScan.dfy` | incremental scanning of layers and `ProcessAncestry` |
| `Grouping.dfy` | `doVulnerabilitiesNamespacing` |
| `Responses.dfy` | what a response of it holds, field by field |
| `Regrouping.dfy` | grouping each updater's vulnerabilities and then everything again, against grouping once |
| `Upsert.dfy` | change detection and `updateVulnerabilities` |
| `UpdateChain.dfy` | `update`: from the responses of the updaters to the stored vulnerabilities |
| `Oval.dfy` | the normal form of OVAL criteria |
| `LeaseLock.dfy` | the locks that expire |
| `Paging.dfy` | the pages of a notification |
| `SourceRpm.dfy` | the source rpm parser |

How the model reads the code:

- A `string` is a Go byte string, one `char` per byte. Bytes are classified as the code does, as the
  rune of the same value, so letters include those of Latin-1. `strings.TrimSpace` is modelled on
  ASCII white space; the regular expression of the rpm parser is modelled by the function `Segments`.
- The two version parsers share their code up to the separator, the allowed symbols and the text
  comparison; a `Format` parameter tells them apart. A slice expression that goes out of bounds is an
  outcome of its own (`Panics`), with the exact condition under which it happens.
- Loops are loops. Where one Go function is a nest of loops (`verrevcmp`, `computeAncestryLayers`,
  `parseSourceRPM`), inner loops or the branches of a round are methods of their own.
- Go maps are walked in any order: the methods pick keys arbitrarily, and results are described as
  listings without duplicates.
- In the cache protocol a statement sees what is committed and what its own transaction wrote (read
  committed), the table lock has one holder until its transaction ends, and a row marked as deleted
  is locked against a second marking. It is an assumption of this model that a namespace name fixes
  its version format, so that an affected feature and a stored feature have the format of their
  namespace; the schema only demands that the pair of name and format is unique. The upsert does not
  assume it: there a namespace with two formats makes the deletion of its vulnerabilities fail.
- Clocks, the files of a layer, failures of the database and the arrival order of updater responses
  are parameters.

Some promises do not hold as one might read them. Each has an input that shows the failure and a
condition under which it holds, and no other:

- A worker does not look at the error of its search (database/pgsql/feature.go:161), so its cache step
  may commit without caching anything. `ProtocolHistory.AgreementAfterCacheStep` says when the cache
  agrees with a plain scan on a feature after its step: if the search succeeds, that is every requested
  feature is stored and every row to look at can be compared, if an earlier one succeeded, or if the
  feature was stored before the scan for every vulnerability that affects it.
  `CachedVersions.ValidRunsAgree` shows that storing only valid versions is enough,
  `CachedVersions.MalformedVersionHidesAnother` that one malformed version is not harmless.
- Printing and parsing a version undo each other exactly if the print hides no colon and no hyphen:
  `Versions.PrintThenParse`, with `Versions.UnprintedEpochIsLost`. Parsing panics exactly on a negative
  zero epoch: `Versions.ParsePanics`, with `Versions.NegativeZeroPanics`.
- Grouping the updaters' groups again equals grouping once, for valid names and severities, exactly if
  no updater has two namespace and name pairs that join to one index: `Regrouping.RegroupingIsGrouping`,
  with `Regrouping.CollisionExample`. Collisions between different updaters are harmless. Without
  collisions the accepted groups are the same exactly if the groups of each index are all acceptable or
  all not: `Regrouping.SeveritiesDecide`, with `Regrouping.InvalidSeverityHidesTheRest`.
- With unique ids an update fails exactly if the cache does not take its rows, it writes an unknown
  severity, which grouping excludes, or it replaces a vulnerability in a namespace with two formats: `Upsert.UpdateVulnerabilities`, with
  `Upsert.TwoFormatsBlockUpdates`.

## Model

| member | source | states |
|---|---|---|
| KeyOrder.CompareIsFirstDifference | ext/versionfmt/driver.go:52-54 | the comparison of two keys is the sign of their first difference, zeros standing for everything past the end, and 0 exactly if there is no difference |
| KeyOrder.Antisymmetric | ext/versionfmt/driver.go:52-54 | comparing in the other order gives the opposite sign |
| KeyOrder.Transitive | ext/versionfmt/driver.go:52-54 | the key order is transitive, and strict as soon as one of the two steps is strict |
| VersionText.LongerIsGreater | ext/versionfmt/rpm/parser.go:223-228 | of two digit strings without leading zeros the longer one denotes the greater number |
| VersionText.AtoiOfItoa | ext/versionfmt/dpkg/parser.go:72-76 | a printed number in the range of `int` is read back as that number |
| VersionText.SignedNumbers | ext/versionfmt/dpkg/parser.go:72-76 | digits are read with a plus, a minus or no sign, within 64 bits |
| VersionText.TrimSpaceStrips | ext/versionfmt/dpkg/parser.go:55-55 | blanks, tabs and line ends around a text are stripped and nothing else |
| DpkgOrder.Order | ext/versionfmt/dpkg/parser.go:249-263 | exactly the digits have the order 0 that also stands for the end of the text |
| DpkgOrder.SymbolStep | ext/versionfmt/dpkg/parser.go:202-218 | unequal orders at the cursors decide between the keys; equal ones that are not 0 are both symbols, and the keys go on behind them |
| DpkgOrder.NumberStep | ext/versionfmt/dpkg/parser.go:219-240 | at two numbers, or ends, the values decide between the keys, and if they are equal what follows decides |
| DpkgOrder.LongerNumber | ext/versionfmt/dpkg/parser.go:232-237 | a number that still has a digit when the other, scanned in step after its zeros, has ended is greater |
| DpkgOrder.CompareNumbers | ext/versionfmt/dpkg/parser.go:219-240 | skipping zeros, running in step and remembering the first difference gives the sign of the difference of the two values, and both cursors end behind the numbers |
| DpkgOrder.Verrevcmp | ext/versionfmt/dpkg/parser.go:195-244 | terminates, and its sign is the zero-padded lexicographic comparison of the keys made of symbol orders and number values |
| DpkgOrder.TildeIsBelowTheEnd | ext/versionfmt/dpkg/parser.go:249-263 | for all texts s and t, s~t is strictly below s |
| DpkgOrder.EndIsBelowSymbols | ext/versionfmt/dpkg/parser.go:249-263 | a text is strictly below the same text followed by any symbol but a digit or a tilde |
| DpkgOrder.SymbolsByKind | ext/versionfmt/dpkg/parser.go:202-218 | where two texts first differ in symbols, letters are below other symbols and symbols of one kind are ordered by code, whatever follows |
| DpkgOrder.NumbersByValue | ext/versionfmt/dpkg/parser.go:219-240 | numbers at the same place of two texts are compared by value, and equal ones leave it to what follows |
| RpmOrder.SegmentsAreMatches | ext/versionfmt/rpm/parser.go:192-193 | the segments are the matches of the pattern one after the other, each leftmost and as long as can be, until nothing matches, and the only such list |
| RpmOrder.TrimZerosKeepsValue | ext/versionfmt/rpm/parser.go:219-221 | trimming leading zeros keeps the value and leaves none |
| RpmOrder.SameLengthOrder | ext/versionfmt/rpm/parser.go:234-239 | on digit strings of one length string order is value order |
| RpmOrder.TrimmedOrder | ext/versionfmt/rpm/parser.go:219-239 | trim zeros, then length, then string order is the order of the values |
| RpmOrder.SegmentStep | ext/versionfmt/rpm/parser.go:197-240 | the first segments decide between two keys by tilde below word below number, or the keys go on behind them |
| RpmOrder.EndAgainstSegment | ext/versionfmt/rpm/parser.go:247-259 | the end of a text is above a tilde and below any other segment |
| RpmOrder.CompareSegments | ext/versionfmt/rpm/parser.go:197-240 | one round of the loop gives the order of the two segments |
| RpmOrder.Rpmvercmp | ext/versionfmt/rpm/parser.go:185-260 | the result is the zero-padded lexicographic comparison of the segment keys, where tilde is below end below word below number |
| RpmOrder.TildeIsBelowTheEnd | ext/versionfmt/rpm/parser.go:197-205 | for all texts s and t, s~t is strictly below s |
| RpmOrder.EndIsBelowSegments | ext/versionfmt/rpm/parser.go:242-259 | a text is strictly below the same text followed by a further word or number |
| RpmOrder.WordsAreBelowNumbers | ext/versionfmt/rpm/parser.go:209-218 | at the same place a word is below a number |
| RpmOrder.NumbersByValue | ext/versionfmt/rpm/parser.go:219-239 | numbers at the same place are compared by value, and equal ones leave it to what follows |
| RpmOrder.WordsByLetters | ext/versionfmt/rpm/parser.go:234-239 | words at the same place are compared letter by letter, a word below a longer one that it starts |
| RpmOrder.SeparatorsOnlySeparate | ext/versionfmt/rpm/parser.go:36-36 | characters other than letters, digits and tildes only separate |
| Versions.CheckSymbols | ext/versionfmt/dpkg/parser.go:99-111 | the loops accept exactly the texts of allowed characters |
| Versions.NewVersion | ext/versionfmt/dpkg/parser.go:51-114 | computes `Parse`: version, error or panic of either format |
| Versions.ParsedVersions | ext/versionfmt/dpkg/parser.go:61-67 | only the sentinel texts parse to the sentinels; every other accepted version has an epoch in range, a non-empty version, allowed characters and, for rpm, no hyphen in the version |
| Versions.FormatsSpelledOut | ext/versionfmt/dpkg/parser.go:37-45 | the sentinel texts, the bounds of the epoch and the characters of version and revision of either format |
| Versions.WellFormedVersionsAreParsed | ext/versionfmt/rpm/parser.go:52-115 | every such version is the parse of its text with explicit epoch and revision |
| Versions.PrintThenParse | ext/versionfmt/dpkg/parser.go:184-193 | a parsed version that is printed and parsed again is itself if and only if a zero epoch comes with no colon in the rest and, for dpkg, an empty revision with no hyphen in the version |
| Versions.PrintThenParseWellFormed | ext/versionfmt/rpm/parser.go:263-272 | the same for every well-formed version, whatever text it came from |
| Versions.UnprintedEpochIsLost | ext/versionfmt/dpkg/parser.go:184-193 | 0:1:2 parses to a version that prints as 1:2, which parses to another one |
| Versions.ParsePanics | ext/versionfmt/rpm/parser.go:86-94 | the slice goes out of bounds exactly for a negative zero before the first colon, and for dpkg only without a hyphen behind it |
| Versions.NegativeZeroPanics | ext/versionfmt/dpkg/parser.go:85-93 | both parsers panic on -0:1 |
| Versions.Compare | ext/versionfmt/dpkg/parser.go:141-181 | computes the order of the two parsed versions, or the first failure to parse |
| Versions.CompareTexts | ext/versionfmt/rpm/parser.go:170-177 | either format compares texts by the key order of that format |
| Versions.EpochDecides | ext/versionfmt/dpkg/parser.go:165-171 | a smaller epoch decides alone |
| Versions.DpkgComparesBySteps | ext/versionfmt/dpkg/parser.go:174-180 | with equal epochs the versions decide by the order of verrevcmp, and where they are equivalent the revisions do |
| Versions.RpmComparesBySteps | ext/versionfmt/rpm/parser.go:170-177 | the same for rpm by the order of rpmvercmp |
| Versions.PreReleaseIsOlder | ext/versionfmt/dpkg/parser.go:141-181 | in both formats a version with a tilde suffix is older than the version without, whatever the revisions |
| Versions.TrailingDot | ext/versionfmt/driver.go:129-140 | a dot at the end of a version makes it greater for dpkg and changes nothing for rpm |
| Versions.OrderIsTotalPreorder | ext/versionfmt/dpkg/parser.go:141-181 | on all versions the order is reflexive, antisymmetric in sign, total and transitive, strict wherever a step is strict |
| Versions.SentinelsAreExtreme | ext/versionfmt/driver.go:27-31 | the minimal version is strictly below and the maximal strictly above every other |
| Versions.InRangeIsMonotone | ext/versionfmt/dpkg/parser.go:123-129 | being in range is closed downward in the version and upward in the bound |
| Versions.SentinelRanges | ext/versionfmt/rpm/parser.go:124-130 | an affected version of `#MAXV#` covers every valid version but itself, one of `#MINV#` none |
| CacheProtocol.PersistKeeps | database/pgsql/feature.go:184-246 | committing features keeps the invariant of the protocol |
| CacheProtocol.MarkKeeps | database/pgsql/vulnerability.go:413-437 | marking a live vulnerability as deleted keeps the invariant |
| CacheProtocol.DropKeeps | database/pgsql/vulnerability.go:388-411 | dropping the affected rows of the marked vulnerabilities, with their cached pairs, keeps the invariant |
| CacheProtocol.InsertKeeps | database/pgsql/vulnerability.go:217-287 | inserting vulnerabilities and affected rows with fresh ids keeps the invariant |
| CacheProtocol.ScanKeeps | database/pgsql/vulnerability.go:299-344 | the updater's scan of committed features behind the lock keeps the invariant |
| CacheProtocol.SearchKeeps | database/pgsql/feature.go:105-149 | the worker's search behind the lock keeps the invariant |
| CacheProtocol.OthersWait | database/pgsql/vulnerability.go:289-295 | only the holder of the lock has results of statements behind the lock |
| CacheProtocol.CommitUpdateKeeps | database/pgsql/vulnerability.go:197-212 | the commit of an update keeps the invariant: old pairs go, new pairs come |
| CacheProtocol.CommittedAffects | database/pgsql/migrations/00001_initial_schema.go:162-175 | after the commit of an update a feature is affected by exactly the new matches and the old rows that were not marked |
| CacheProtocol.CommitCacheKeeps | database/pgsql/feature.go:151-182 | the commit of a cache step keeps the invariant |
| CacheProtocol.AbortKeeps | database/dbutil.go:209-221 | a rollback keeps the invariant |
| CacheProtocol.RunInvariant | database/pgsql/vulnerability.go:299-411 | the invariant holds in every state of every interleaving |
| CacheProtocol.CacheIsSound | database/pgsql/feature.go:52-63 | in every interleaving a cached pair is read, and its row makes a live vulnerability of the same namespace and feature name affect the version |
| CacheProtocol.FailedSearchLosesAFeature | database/pgsql/feature.go:161-171 | for any range test a reachable cache step with one version that cannot be compared leaves an affected feature uncached |
| CacheScans.SelectInRange | database/pgsql/vulnerability.go:319-353 | the loop yields exactly the rows in range, without duplicates, or fails exactly if a row has no candidate or cannot be compared |
| CacheScans.InsertRelation | database/pgsql/vulnerability.go:355-369 | the plain inserts succeed exactly if no pair occurs twice, and then map each pair to its row |
| CacheScans.CacheVulnerabilityAffected | database/pgsql/vulnerability.go:299-372 | for any order of the rows it computes the relation of the scan step, and fails exactly if a row cannot be compared or a vulnerability matches a feature twice |
| CacheScans.SearchAffecting | database/pgsql/feature.go:105-182 | for any order of the rows it computes the result of the search step, including the one of an unnoticed failure; it has none exactly if the range test panics on a row before any other fails |
| CacheScans.FindAffectedNamespacedFeatures | database/pgsql/feature.go:250-324 | for each requested feature, repeated or not, whether it is stored and, once each, exactly the vulnerabilities that are read from the cache for it |
| ProtocolHistory.CommitUpdateHistory | database/pgsql/vulnerability.go:197-212 | the commit of an update caches its pairs for exactly the features that were stored when it scanned |
| ProtocolHistory.RunHistory | database/pgsql/vulnerability.go:299-411 | in every state of every interleaving a cached pair has a feature that was stored at the scan or went through a cache step, and an affected pair of a feature stored at the scan is cached |
| ProtocolHistory.CacheIsExactly | database/pgsql/feature.go:52-63 | in every state of every interleaving a vulnerability is read for a feature if and only if a plain scan finds it and the feature was stored when the vulnerability was scanned for or went through a cache step whose search succeeded |
| ProtocolHistory.AgreesExactlyIf | database/pgsql/feature.go:250-324 | the cache agrees with a plain scan on a feature if and only if it went through such a step or was stored in time for every vulnerability that affects it |
| ProtocolHistory.Undisturbed | database/pgsql/vulnerability.go:289-295 | between the search and the commit of a cache transaction no row that the search looked at changes |
| ProtocolHistory.EveryCommitHasItsSearch | database/pgsql/feature.go:151-182 | every commit of a cache transaction was preceded by its search |
| ProtocolHistory.CachedIs | worker.go:265-275 | the cached history holds exactly the features of committed cache steps whose search succeeded |
| ProtocolHistory.CacheAgreesWithScan | worker.go:265-275 | in every interleaving, from the commit of a cache step on, what is read for a feature of that step is exactly what a plain scan finds, if at the search every requested feature was stored and every row could be compared |
| ProtocolHistory.AgreementAfterCacheStep | database/pgsql/feature.go:151-182 | the exact condition, at the moment of the search, for the cache to agree on a feature after its step: the search succeeds, an earlier one did, or the feature was stored before the scan for every vulnerability that affects it |
| CachedVersions.InRangeDecides | ext/versionfmt/driver.go:129-140 | the range test decides exactly if the format is known and both versions are valid |
| CachedVersions.ValidSearchSucceeds | database/pgsql/feature.go:105-149 | on tables with valid versions a search for stored features succeeds |
| CachedVersions.ValidRunsAgree | worker.go:265-275 | in every interleaving in which stored and affected versions are valid and workers cache what they stored, from the commit of a cache step on every feature of it is read exactly as a plain scan finds it |
| CachedVersions.CachedExactlyIfAffected | database/pgsql/vulnerability.go:56-75 | in every such interleaving a feature that went through a cache step is cached for a vulnerability if and only if that is not deleted, has the same namespace and one of its rows has the feature name and an affected version above |
| CachedVersions.MalformedVersionHidesAnother | database/pgsql/feature.go:161-171 | versions 1.0 and a:1 of one package cached in one step: an unfixed vulnerability that affects 1.0 is not read for it |
| CachedVersions.LowerVersionsAreAffectedToo | ext/versionfmt/driver.go:129-140 | in every such interleaving a feature of a lower version that went through a cache step is read as affected by whatever a higher version is |
| CachedVersions.UnfixedVulnerabilityAffectsEveryVersion | database/pgsql/feature.go:41-50 | in every such interleaving a live vulnerability with affected version `#MAXV#` is read for every feature it names that went through a cache step |
| Ancestry.GetCommonDetectors | worker.go:283-301 | the detectors that scanned every layer |
| Ancestry.NamespacesAreInForce | worker.go:322-328 | the namespace known for a format is the last commonly detected one of that format up to this layer |
| Ancestry.FailsWhenHomeless | worker.go:332-368 | the computation fails exactly if a layer has a commonly detected feature whose format has no commonly detected namespace in that layer or an earlier one |
| Ancestry.BeganIsBeganAt | worker.go:344-364 | the inherited layer index is where the unbroken run of presence, over the layers with the format, began |
| Ancestry.GatherIsClosedForm | worker.go:316-381 | the entry of a format and key exists exactly if some layer introduced it, and carries that layer, its last listed feature and the namespace in force there |
| Ancestry.KeysOfTheLastLayer | worker.go:371-380 | the keys reported for a format are exactly those of the last layer with a commonly detected feature of the format |
| Ancestry.AncestryIsClosedForm | worker.go:383-390 | a layer of the ancestry lists exactly the features that layer introduced |
| Ancestry.ReportedFeaturesAreConsistent | database/pgsql/ancestry.go:266-270 | every reported feature has the format of its namespace, and both its detectors are common to all layers |
| Ancestry.GatherFeatures | worker.go:310-381 | the nested loops compute the fold over the layers, error included |
| Ancestry.ReadFeatures | worker.go:330-369 | the loop over the features of a layer computes the entries of that layer |
| Ancestry.ListFeatures | worker.go:383-390 | in any order of the maps, every layer lists its introduced features once each |
| Ancestry.ComputeAncestryLayers | worker.go:305-398 | empty for no layers, an error exactly if some commonly detected feature has no namespace of its format, otherwise per layer its hash and, once each, exactly the features of the keys it introduced, and the common detectors |
| Ancestry.SpliceEmptyLayer | worker.go:305-390 | an empty layer scanned by all common detectors, spliced in anywhere, leaves error, detectors, hashes and features of the outcome as they were and adds one empty layer there |
| ReportedFeatures.LastLayerIsReported | worker.go:371-390 | for names without a colon, a name and version of a format are reported if and only if the last layer with a commonly detected feature of the format has them |
| ReportedFeatures.ReportedFeatureBegan | worker.go:344-364 | every reported feature was found in its layer by a detector that scanned all layers, and its name and version are in every later layer with the format but not in the latest earlier one |
| ReportedFeatures.BegunFeatureIsReported | worker.go:344-364 | every name and version whose run began in a layer is reported there |
| ReportedFeatures.ReportedOnce | worker.go:383-390 | each name and version of a format is reported once |
| ReportedFeatures.ReportedNamespace | worker.go:322-328 | a reported feature carries the last commonly detected namespace of its format up to its layer |
| ReportedFeatures.FailureSpelledOut | worker.go:332-368 | an error exactly if a layer has a commonly detected feature and neither it nor an earlier layer a commonly detected namespace of that format; otherwise the detectors that scanned every layer |
| LayerScan.AppendMissingIs | database/dbutil.go:284-303 | appending keeps what was there in place, adds exactly the new elements once each, and nothing the second time |
| LayerScan.LayerRecord.MergeLayers | database/dbutil.go:267-306 | merges the three lists of another layer into the layer in place, also if it is the same layer |
| LayerScan.AddAll | database/dbutil.go:272-289 | one loop of the merge appends the missing elements |
| LayerScan.DiffDetectors | database/dbutil.go:245-263 | the detectors of the first list that are not in the second, once each |
| LayerScan.DetectedIsFaithful | worker.go:423-456 | the detected content is exactly what the given detectors find |
| LayerScan.MergedIsFaithful | worker.go:195-202 | merging two layers that hold what their detectors find gives such a layer |
| LayerScan.StoredLayersAreFaithful | database/database.go:134-137 | over any interleaving of requests under changing detectors a stored layer holds exactly what the detectors of its list find, and the list never shrinks |
| LayerScan.Datastore.DetectLayers | worker.go:103-132 | each requested layer is scanned by exactly the enabled detectors that have not seen it |
| LayerScan.Datastore.PersistLayers | worker.go:134-159 | persisting keeps the stored layers faithful, also when it stops half way; when it succeeds every layer is merged with its new content |
| LayerScan.CombineLayers | worker.go:195-202 | each requested layer is its stored content merged in place with its new content |
| LayerScan.Datastore.ProcessLayers | worker.go:164-193 | on success the returned layers are the stored ones, hold what their detectors find and were scanned by all enabled detectors |
| LayerScan.Datastore.IsAncestryProcessed | worker.go:204-211 | true exactly if the ancestry is stored and every enabled detector is among those that processed it |
| LayerScan.Datastore.ProcessAncestry | worker.go:215-281 | a processed ancestry is left alone; after another success the stored ancestry is the one computed from its stored layers and counts as processed exactly if there was a layer or no enabled detector; failures change no ancestry |
| LayerScan.SkippedExactlyIf | worker.go:204-211 | after a success on at least one layer, a request under any detectors is skipped if and only if each of them scanned every stored layer of the ancestry |
| LayerScan.RequestTwice | worker.go:215-281 | two requests in a row: the second is skipped exactly then |
| Grouping.GroupedIsGroup | updater.go:419-448 | the map holds for each index the first contributing vulnerability and namespace with all features of the index |
| Grouping.GroupKeepsFeatures | updater.go:426-447 | a group holds exactly the well-formed features of its index, in order and with multiplicity |
| Grouping.DoVulnerabilitiesNamespacing | updater.go:419-466 | the response lists each acceptable group once, in some order |
| Responses.CompleteFeaturesAreListed | updater.go:426-447 | for valid names and severities every affected feature with type, affected version, feature name, namespace name and format is listed, whatever its other fields |
| Responses.ListedIsComplete | updater.go:426-465 | every listed feature has these five fields and comes from a raw vulnerability, and every listed vulnerability has a name, a known severity and a namespace |
| Responses.ListedHoldsWhatIsWanted | updater.go:436-447 | for names without a colon a listed vulnerability holds exactly the complete features of its name and namespace, in order and with multiplicity |
| Responses.WantedIsListed | updater.go:436-465 | for valid such names a name and namespace are listed if and only if they have a complete feature, and only once |
| Responses.ListedNames | updater.go:439-443 | a listed vulnerability copies name, description, link, severity and metadata of a raw one |
| Grouping.ListingHasUniqueIds | updater.go:450-465 | the ids of a response are unique |
| Grouping.AddVulnerability | updater.go:425-447 | the loop over the affected features of a vulnerability adds its entries to the groups |
| Regrouping.RegroupingIsGrouping | updater.go:196-198 | for valid names and severities, grouping each updater's output and grouping the concatenation again equals grouping all raw vulnerabilities once if and only if no updater has colliding indexes of its own |
| Regrouping.SeveritiesDecide | updater.go:450-465 | without such collisions the accepted groups are the same if and only if for every index the updaters' groups are all acceptable or all not |
| Regrouping.CollisionMovesFeatures | updater.go:436-446 | an updater with a collision gives some index features that are not the next it is due |
| Regrouping.RegroupingKeepsOwn | updater.go:436-446 | grouping again takes from no index the features of the namespace that opened its group |
| Regrouping.NoCatchingUp | updater.go:298-298 | an index that is ahead of what it is due stays ahead whatever the next updater brings |
| Regrouping.CollisionExample | updater.go:436-446 | namespace a with name x:m against namespace a:x with name m: grouped once and grouped twice differ |
| Regrouping.RegroupUpdater | updater.go:295-304 | for one updater without collisions, its grouped output groups to what the filter left of the groups of its raw output |
| Regrouping.ColonFreeNamesAreUnambiguous | updater.go:436-436 | vulnerability names without a colon never make indexes collide |
| Regrouping.CollisionIsTornApart | updater.go:436-446 | two vulnerabilities whose indexes collide are one group after the first grouping and torn apart by the second |
| Regrouping.InvalidSeverityHidesTheRest | updater.go:452-461 | an invalid first vulnerability of an index hides a valid second one in a single grouping only |
| Upsert.OneDirectionIsEnough | updater.go:524-530 | as many distinct keys as the other side has keys, all found there, make both sides duplicate free and permutations of each other |
| Upsert.IsVulnerabilityChanged | updater.go:515-534 | on two distinct objects it is false exactly if both are there, the severities are equal and both key lists are duplicate free and permutations of each other |
| Upsert.EquivalentByNames | updater.go:515-534 | for feature names without a colon nothing changed exactly if the severities are equal, neither side has a namespace and feature name twice, and each feature has its counterpart on the other side |
| Upsert.EquivalentUpToOrder | updater.go:515-534 | the verdict does not depend on the order of the affected features |
| Upsert.FindVulnerabilityChanges | updater.go:539-576 | fails exactly on a duplicate old id, otherwise lists the changes once each |
| Upsert.ChangesAre | updater.go:553-569 | with unique new ids, an id has no change exactly if old and new are equivalent, or carries its old and its new vulnerability |
| Upsert.Session.FindVulnerabilities | database/pgsql/vulnerability.go:115-195 | the live row of each id, its affected features in no particular order |
| Upsert.Session.PersistNamespaces | database/pgsql/namespace.go:30-55 | adds the missing namespaces, and fails exactly if one lacks a name or a format |
| Upsert.Session.DeleteVulnerabilities | database/pgsql/vulnerability.go:374-437 | succeeds exactly if the ids are distinct and live and no namespace of theirs has two formats, and then removes exactly those from the live rows |
| Upsert.Session.InsertVulnerabilities | database/pgsql/vulnerability.go:248-287 | succeeds exactly if the ids are distinct, the severities known and the cache takes the rows; of ids that were not live exactly those with a stored namespace become live, and stay unique |
| Upsert.CheckUnique | database/pgsql/vulnerability.go:255-266 | the loop finds out whether an id occurs twice |
| Upsert.UpdateVulnerabilities | updater.go:622-689 | with unique ids it fails exactly if the cache does not take the rows, or an outdated vulnerability has an unknown severity or is to replace a live one in a namespace with two formats; otherwise, for stored namespaces, live ids stay unique, the live rows become the upsert and the changes are one per outdated vulnerability; on an error nothing is changed |
| Upsert.ApplyChanges | updater.go:654-682 | removing and adding is carried out as a whole or not at all, and exactly if no statement fails |
| Upsert.TwoFormatsBlockUpdates | database/pgsql/vulnerability.go:87-93 | a vulnerability of a namespace with two formats cannot be replaced |
| Upsert.UpsertedIs | updater.go:654-682 | a requested id holds the new row if it was absent or changed and the old one otherwise |
| Upsert.UpsertedElsewhere | updater.go:654-682 | ids that were not requested are untouched |
| Upsert.PlanApplies | updater.go:659-682 | the ids to remove are distinct and live, the ids to add are distinct and free, and removing and adding them is the upsert |
| Upsert.LoadedOfStored | database/pgsql/vulnerability.go:172-191 | reading a stored vulnerability back loses only the types of its affected features |
| Upsert.SecondUpdateReportsDuplicates | updater.go:622-689 | a second update with the same input reports no change for a vulnerability if and only if its affected keys are distinct |
| Upsert.SecondUpdateIsIdle | updater.go:622-689 | with distinct affected keys the second update has no changes |
| UpdateChain.ResponseIsUnique | updater.go:450-465 | a grouped response has unique ids and only acceptable vulnerabilities, as the upsert needs |
| UpdateChain.ResponseOwnsItsFeatures | updater.go:436-446 | without collisions every affected feature has the namespace of its vulnerability |
| UpdateChain.GroupedResponsesAreUnambiguous | updater.go:295-304 | if all raw vulnerabilities are free of collisions, so is the concatenation of the groups |
| UpdateChain.FetchedAgain | updater.go:188-198 | in whatever order maps are walked, the same vulnerabilities reach the database |
| UpdateChain.FetchAndGroup | updater.go:188-198 | unique ids and acceptable vulnerabilities, and for valid updaters without collisions the groups of all raw vulnerabilities |
| UpdateChain.Update | updater.go:188-230 | fails exactly if the cache does not take the rows or a vulnerability is to be replaced in a namespace that then has two formats, and changes no vulnerability then; otherwise the live rows become the upsert of what was fetched |
| UpdateChain.SecondRunIsIdle | updater.go:188-230 | for responses without collisions a second update has no changes if and only if the affected features of every fetched vulnerability have distinct keys |
| Oval.GetCriterions | ext/vulnsrc/rhel/rhel.go:237-266 | the possibilities of a node's own criterions, ignored ones dropped |
| Oval.OwnPossibilitiesMeaning | ext/vulnsrc/oracle/oracle.go:244-273 | some of them holds exactly if the node without children does |
| Oval.CrossMeaning | ext/vulnsrc/rhel/rhel.go:287-300 | some possibility of the product holds exactly if one holds on each side |
| Oval.ComposeAll | ext/vulnsrc/rhel/rhel.go:283-300 | the nested product loops compute the conjunction of the groups |
| Oval.GetPossibilities | ext/vulnsrc/oracle/oracle.go:275-317 | the recursion computes the normal form of the tree |
| Oval.PossibilitiesMeanTheTree | ext/vulnsrc/rhel/rhel.go:268-310 | for every tree, ignore list and truth assignment the tree holds exactly if some possibility holds entirely |
| Oval.PossibilitiesOf | ext/vulnsrc/oracle/oracle.go:244-317 | so for the computed possibilities with the ignore list of either source |
| Oval.IgnoredSpelledOut | ext/vulnsrc/rhel/rhel.go:50-55 | the criterions that each source ignores, by what their comments contain |
| Oval.ContainsIs | ext/vulnsrc/oracle/oracle.go:250-256 | a comment contains a text exactly if it is the text with something before and after |
| LeaseLock.LockTable.Lock | database/pgsql/lock.go:42-75 | renewal updates the owner's row, acquisition prunes and inserts; the result says whether the lock is granted |
| LeaseLock.LockTable.LockAndCommit | notifier.go:230-251 | only a granted lock changes the committed table: a refusal rolls the pruning back |
| LeaseLock.LockTable.UnlockAndCommit | notifier.go:214-228 | only the owner's row is removed |
| LeaseLock.StepKeepsInvariant | database/pgsql/lock.go:42-87 | whoever was given an unexpired lock has the row with that expiration, after every step |
| LeaseLock.MutualExclusion | database/pgsql/lock.go:27-87 | in every run two different owners never both hold an unexpired lock of a name |
| LeaseLock.HolderIsUndisturbed | database/pgsql/lock.go:77-87 | a step of anyone else, stale or not, leaves the holder's row and expiration alone and is not granted |
| LeaseLock.RenewingKeepsTheLock | notifier.go:109-121 | an owner that renews at gaps within the lock duration never loses the lock, whatever others do, and every renewal is granted |
| LeaseLock.RefreshConstantsKeepTheLock | updater.go:37-38 | so for the refresh and lock durations of the updater (8 of 10 minutes) and the notifier (2 of 10 minutes) |
| LeaseLock.LongerGapsLoseTheLock | database/pgsql/lock.go:109-121 | for any gap longer than the duration another owner can take the lock in between |
| LeaseLock.UnlockFrees | database/pgsql/lock.go:77-87 | the owner's unlock removes that lock and no other, and the next acquisition of the name, by anyone, is granted |
| LeaseLock.FreeNameIsGranted | database/pgsql/lock.go:64-75 | a name that is not locked can be acquired by anyone |
| LeaseLock.AcquireSpelledOut | database/pgsql/lock.go:60-75 | a lock is acquired exactly if there is none or it expired before the transaction began, and then all expired locks are gone |
| LeaseLock.RenewSpelledOut | database/pgsql/lock.go:48-59 | a lock is renewed exactly if the owner has it, and no other lock changes |
| Paging.RowsAre | database/pgsql/notification.go:58-69 | the rows ascend from the start id and leave out no id below the last one, or none at all if there are fewer than the limit |
| Paging.FindPagedVulnerableAncestries | database/pgsql/notification.go:210-272 | the page is the first rows up to the limit, and one row more is the start of the next page |
| Paging.PageIsWindow | database/pgsql/notification.go:248-264 | a page holds exactly the affected ids from its start to the next page's start, with their names |
| Paging.PageSize | database/pgsql/notification.go:248-259 | a page is never longer than the limit, and full if another one follows |
| Paging.PagesAscend | database/models.go:248-251 | while ancestries come and go, ids strictly increase from page to page, so none is returned twice |
| Paging.EveryIdHasItsPage | database/pgsql/notification.go:231-259 | in a complete iteration every id has one request that covers it, and is returned exactly if it was affected then, by that request only |
| Paging.LastingAncestryIsReturned | database/pgsql/notification.go:58-69 | an ancestry affected throughout the iteration is returned |
| Paging.PagesAreTheSortedTable | database/pgsql/notification.go:210-272 | on a fixed table the pages one after the other are the sorted list of all affected ids |
| Paging.FixedTableIterationEnds | database/pgsql/notification.go:248-259 | on a fixed table following the tokens from the first page comes to an end, for a limit of at least 1 |
| Paging.ZeroLimitStalls | api/v3/rpc.go:163-165 | a limit of 0, which the API rejects, would return the same empty page for ever |
| SourceRpm.ScanSourceRPM | ext/featurefmt/rpm/rpm.go:143-193 | the backward scan finds the four marks, or the first thing that is wrong |
| SourceRpm.ParseSourceRPM | ext/featurefmt/rpm/rpm.go:143-208 | computes `Parsed`: the parts or the error |
| SourceRpm.Package.FillSource | ext/featurefmt/rpm/rpm.go:205-207 | the source fields are set on success and untouched on an error |
| SourceRpm.PrintOfParsed | ext/featurefmt/rpm/rpm.go:143-208 | on success the input is name-version-release.arch.rpm with arch src or nosrc, non-empty parts, no hyphen in version and release, and a valid rpm version |
| SourceRpm.ParsedOfPrint | ext/featurefmt/rpm/rpm.go:143-208 | every such source parses back to its parts from its print |
| SourceRpm.ParsedSpelledOut | ext/featurefmt/rpm/rpm.go:143-208 | name-version-release followed by .src.rpm or .nosrc.rpm parses to these parts if none is empty, the last two have no hyphen and make a valid rpm version |
| SourceRpm.AcceptedSpelledOut | ext/featurefmt/rpm/rpm.go:143-208 | nothing else is accepted |

## Left out

- HTTP, git, tar, gRPC, protobuf, metrics, logging, configuration and the driver registries: plumbing.
- Token encryption: a token is the start id it encodes, and tokens do not expire.
- Row-id lookups of features and namespaces: rows are identified by their columns.
- CacheProtocol.StepKeeps: transactions are steps on values instead of objects updated in place, since the claims are about interleavings; an update of the same row by two transactions is never attempted instead of blocking, and an updater whose scan meets a malformed version may go on, which only adds runs.
- Filling the columns of notification rows, and sending notifications.
- Sort comparators before bulk inserts, and freedom from deadlock.
- That an update runs only while the updater lock is held: exclusion is claimed for the lock only.
- Metadata that is added between the two groupings of the updater.
- Ancestry.ComputeAncestryLayers: the detectors are returned as a set, not as a slice in some order.
- Upsert.Session.InsertVulnerabilities: whether the cache takes the new rows is a parameter; when it does is stated by `CacheScans.CacheVulnerabilityAffected`.
- LayerScan.Datastore.ProcessAncestry: persisting the namespaced features and caching them is the cache protocol.
- SourceRpm.ParseSourceRPM: the error texts are not modelled, only which check fails.
- The Debian, Ubuntu, Alpine and Amazon sources, the package list parsers, namespace detectors and severity mappings.
