# A verified model of the OTA update server

This project models the decision-making parts of the server in Dafny and proves what they do for
every input, every sequence of requests and every run of a device. It follows the program's own
structure; loops and table updates are methods proved against specification functions, and the
properties are lemmas about those functions.

* **Rollout and decision** (`Machine`, `Modular`, `Cohort`, `Rollout`, `Eligibility`, `Decision`,
  `Convergence`, `Entitlement`, `Fleet`, `Fixtures`). A wrapping 32-bit hash picks an affine shuffle of the 1000 numeric cohorts;
  the shuffle is a permutation, so a rollout of n lets in exactly n cohorts. `Decision` is one update
  check; `Convergence` follows a device that keeps checking (its bundle id becomes the one the answer
  names, or the nil id on INIT_ROLLBACK) and proves where every run ends; `Entitlement` says what a decision
  and a run are without the program's tests; `Fleet` counts the cohorts.
* **Store** (`Json`, `Store`, `StoreInvariant`, `StoreRuns`, `StoreIdempotence`, `StoreHandlers`,
  `Columns`, `PatchLists`, `ListView`, `Acceptance`). Two tables keyed by (app, id), both compared without regard to ASCII case, as
  the columns' collations do.
  `Store` specifies POST, PATCH and DELETE through the SQL statements they issue; the class
  `StoreHandlers.Database` runs them statement by statement inside a transaction.
* **Listing** (`IdOrder`, `Pagination`, `Walks`, `Pages`). SQL as filter, sort, limit and offset; every page is
  a window on the full listing, and walks along the cursors tile it.
* **Version ranges** (`Semver`, `SemverMeaning`, `SemverSyntax`, `SemverEdges`, `Coerce`). Parsing to bounds, the
  meaning of comparators by precedence, and the printer whose text parses back to its meaning.
* **Artifacts and answers** (`Uri`, `Artifacts`, `Layout`, `Resolution`, `Delivery`, `Response`). Storage keys,
  the manifest diff, the policy on storage failures with storage as an oracle, and the response body; a device that
  acts on such responses converges although any of its checks may fail.
* **Deployment**, **Serving** and **Shipping** tie them together: what is stored, who sees it, where devices
  end, that listings, patches and answers served from a store built by requests are right, and how many
  devices a published bundle reaches.

Four claims one might expect of the code are false, and the exact conditions are proved instead:

* A newest bundle with rollout n does not always hold exactly n cohorts. It holds more if it is the oldest
  candidate and not above the device's minimum id, and fewer if its id is below the nil id.
  `Fleet.FleetShare` gives the number for every newest bundle, `Fleet.FleetShareAboveNil` says when it is n;
  `Fleet.FloorKeepsEveryone` and `Fleet.NilKeepsEveryone` are examples.
* A run does not always end on the greatest eligible bundle: if that bundle's id is below the nil id, a
  run can be caught on the nil id. `Convergence.WhereRunsEnd` says exactly where every run ends;
  `Deployment.FreshDeviceIsCaught` is an example.
* A `nextCursor` does not imply `hasNextPage`. `Walks.HasNextAgainstCursor` says exactly when;
  `Walks.ShortBeforePage` is an example.
* Two PATCHes in a row are not always one combined PATCH, because of the metadata merge.
  `Columns.TwoPatchesAreOne` says exactly when; `Columns.MetadataDoesNotCombine` is an example.

Comments disagree with the code in two places, and the model follows the code. The comment at
`src/routes/api.rs:366-371` speaks of `ascii_bin` id columns and of a cross-app ownership check in
`create_bundles`; the columns are `ascii_general_ci`, so ids compare without regard to case, and
isolation comes from the composite key alone.

## Model

| member | source | states |
|---|---|---|
| `Cohort.PositiveMod` | src/cohort.rs:7-9 | the double remainder is the mathematical residue for negative values too, and its intermediate sum fits 32 bits for every modulus up to 2^30 |
| `Cohort.HashString` | src/cohort.rs:11-23 | the loop of wrapping shifts, subtractions and additions yields the base-31 polynomial of the characters reduced to signed 32 bits |
| `Cohort.HashOfConcat` | src/cohort.rs:11-23 | the hash of a concatenation is hash(a) * 31^length(b) + hash(b), wrapped to signed 32 bits, for all strings |
| `Cohort.GcdOf` | src/cohort.rs:25-34 | the loop computes the greatest common divisor of the absolute values |
| `Modular.GcdIsGreatestCommonDivisor` | src/cohort.rs:25-34 | what Euclid computes is divided by exactly the common divisors of its arguments |
| `Cohort.EuclidStep` | src/cohort.rs:36-55 | one turn of the extended Euclid loop keeps both congruences, the gcd, the alternating signs and abs(t)*r' + abs(t')*r = modulus, and all its products and differences stay within the modulus |
| `Cohort.ModularInverse` | src/cohort.rs:36-55 | terminates without 32-bit overflow for every value and every modulus in 1..2^30; succeeds exactly when value and modulus are coprime, with a result in range whose product with value is congruent to 1 |
| `Modular.InverseExistsIffCoprime` | src/cohort.rs:36-55 | an inverse exists exactly when the gcd is 1, so the refusal of the loop is right |
| `Modular.InverseIsUnique` | src/cohort.rs:36-55 | there is one inverse in range, so the loop returns the one the specification speaks of |
| `Rollout.NextUnit` | src/cohort.rs:63-79 | the multiplier search ends at or below 997 on the least number from its start on that is coprime to 1000, so it never wraps around |
| `Rollout.RolloutShuffleParameters` | src/cohort.rs:63-87 | the loops yield the multiplier, the offset and the inverse of the specification; the fallback of the inverse is never taken |
| `Rollout.NumericCohortRolloutPosition` | src/cohort.rs:134-143 | computes the position of the specification without overflow, and 0 outside 1..1000 |
| `Rollout.PositionOfCohortAt` | src/cohort.rs:63-87 | (multiplier * p + offset) mod 1000 + 1 is a right inverse of the position function on 0..999 |
| `Rollout.CohortAtPosition` | src/cohort.rs:134-143 | ... and a left inverse on the cohorts 1..1000: the position is a bijection for every bundle id |
| `Rollout.ExactShare` | src/cohort.rs:134-182 | for every bundle id and every n in 0..1000 exactly n of the 1000 cohorts have a position below n |
| `Fixtures.HashOfHello` | tests/fixtures.json:6-10 | the hash of a recorded input is the recorded number |
| `Fixtures.HashOfBusiness` | tests/fixtures.json:11-14 | so is one that overflows 32 bits on the way |
| `Fixtures.RecordedPositions` | tests/fixtures.json:90-125 | from the recorded hashes of the nil bundle follow its recorded positions |
| `Eligibility.IsCohortEligibleForUpdate` | src/cohort.rs:145-182 | without a cohort a device is in exactly when the count is absent or at least 1000, whatever the targets; with one, exactly when a target has the same normal form, or the normal form is a number whose position is below the count |
| `Eligibility.NormalizeTwice` | src/cohort.rs:107-113 | normalising a cohort name is idempotent |
| `Eligibility.NormalForm` | src/cohort.rs:96-113 | white space around a cohort is dropped; a numeral of 1..1000 loses its leading zeros, and anything else is lower-cased |
| `Text.FoldByAlphabet` | src/cohort.rs:107-113 | lower-casing replaces each capital of the alphabet by the small letter at its place and nothing else |
| `Text.TrimDrops` | src/cohort.rs:107-113 | trimming removes the white space around a text and no more |
| `Eligibility.ValidCohortForms` | src/cohort.rs:119-132 | a cohort is valid exactly when its normal form is the numeral of 1..1000 or a lower-case slug of at most 64 characters that is not all digits; normalising first changes no answer |
| `Eligibility.EligibilityByNormalForm` | src/cohort.rs:145-182 | eligibility looks at nothing but the normal form of the device's cohort: it is in exactly when a target cohort has that form, or it is a number whose position is below the clamped count, also at 0 and 1000 |
| `Eligibility.EligibilityOfNumericCohort` | src/cohort.rs:145-182 | without target cohorts every spelling of a numeric cohort is in exactly when the cohort's position is below the clamped count |
| `Eligibility.RaisingRolloutAdds` | src/cohort.rs:145-182 | raising the rollout count never shuts a device out |
| `Decision.DecideUpdate` | src/routes/check.rs:970-1065 | the two scans and the branch cascade decide as specified: greatest eligible newer candidate, greatest older one, and the built-in and minimum-id cases |
| `Decision.BestIsGreatest` | src/routes/check.rs:990-1030 | a scan ends on a wanted candidate that no wanted candidate exceeds, or on none if none is wanted |
| `Entitlement.OffersMeansEntitled` | src/cohort.rs:145-182 | a candidate is on offer exactly to those entitled: without a cohort at rollout 1000, else by target cohort or by position |
| `Entitlement.DecisionExactly` | src/routes/check.rs:978-1065 | the decision is the one right verdict: the newest available bundle above the device's own; else nothing for a fresh device or one whose bundle is available; else the next older bundle; else the reset above the minimum id |
| `Entitlement.DecisionWithoutCohort` | src/cohort.rs:167-170 | without a cohort the answer is UPDATE exactly when a newer candidate has a rollout of at least 1000, and names the greatest of these |
| `Entitlement.SentBackExactly` | src/routes/check.rs:1036-1065 | ROLLBACK and the reset come exactly when the device is not fresh, nothing available is as new as its bundle, and there is, or is not, an older candidate |
| `Entitlement.RunsEndOnNewest` | src/routes/check.rs:978-1065 | with something available every run ends on the newest such bundle, unless that one is below the nil id and the run starts on or passes through the nil id |
| `Entitlement.RunsEndBelow` | src/routes/check.rs:978-1065 | with nothing available it ends on the lowest id on the way down, if that is at or below the minimum and the nil id is not met, else on the nil id |
| `Entitlement.RunWithoutCohort` | src/cohort.rs:167-170 | a device without a cohort ends on the greatest candidate with a rollout of at least 1000, up to the nil id |
| `Convergence.UpdateSettles` | src/routes/check.rs:978-1065 | a device that followed UPDATE has nothing more to do |
| `Convergence.RollbackDescends` | src/routes/check.rs:978-1065 | ROLLBACK leads to the next older candidate, skips none, and leaves nothing newer on offer |
| `Convergence.ResetIsFinal` | src/routes/check.rs:978-1065 | INIT_ROLLBACK is answered only when nothing at all is on offer, and the built-in bundle is then final |
| `Convergence.OnlyFirstAnswerUpdates` | src/routes/check.rs:978-1065 | no oscillation: of all the answers of a run only the first can be UPDATE |
| `Convergence.EveryRunSettles` | src/routes/check.rs:978-1065 | from any starting bundle a run comes to rest within one answer per older candidate plus one, hence within the number of candidates plus one |
| `Convergence.WhereRunsEnd` | src/routes/check.rs:978-1065 | the end of every run is determined: the greatest eligible candidate, unless that one is older than the built-in id and the run is caught there; with nothing eligible the oldest candidate or the start, if that is at or below the minimum id and the nil id is not met first, else the built-in bundle |
| `Convergence.DuplicateIdsWouldOscillate` | src/routes/check.rs:978-1065 | distinct ids are needed: with one id listed twice a device alternates for ever between it and the built-in bundle |
| `Fleet.SettlesOnNewest` | src/routes/check.rs:978-1065 | exactly when a run ends on the newest candidate, whatever its id: the device is eligible for it and not a fresh one above it, or it is held: by the oldest candidate not above the minimum id, or by a bundle that carries the nil id |
| `Fleet.WhoRestsOnNewest` | src/routes/check.rs:978-1065 | the cohorts that come to rest on an untargeted newest bundle are exactly those its rollout has reached and the nil id does not catch, plus those it holds |
| `Fleet.FleetShare` | src/routes/check.rs:978-1065 | for every newest bundle and all starting bundles, the number of cohorts that come to rest on it is its rollout, plus the cohorts held beyond that, minus those caught on the nil id |
| `Fleet.FleetShareAboveNil` | src/routes/check.rs:978-1065 | for ids above the nil id at least n cohorts rest on it, and exactly n exactly when it is not the floor or no cohort outside the rollout starts on it or above it |
| `Fleet.NilKeepsEveryone` | src/routes/check.rs:1043-1048 | no fresh device rests on a newest bundle below the nil id, however large its rollout |
| `Fleet.FloorKeepsEveryone` | src/routes/check.rs:1048-1065 | the share can be larger: at rollout 0 a bundle that is the only candidate and the minimum id still holds all 1000 cohorts that are on it |
| `Fleet.RaisingOnlyAdds` | src/cohort.rs:145-182 | raising the rollout of the newest bundle only adds resting cohorts, whatever its id and target cohorts |
| `Fleet.RaisingNeverEvicts` | src/routes/check.rs:978-1065 | raising it moves no settled device off it, whatever its cohort and the target cohorts |
| `Deployment.SelectedByRange` | src/routes/check.rs:299-304 | a row whose target version is a range in canonical text is a candidate for exactly the versions the range stands for |
| `Deployment.CandidatesAreDistinct` | src/routes/check.rs:1157-1182 | the candidates of one check have distinct ids, because the key of a consistent store identifies them |
| `Deployment.FreshDeviceIsCaught` | src/routes/check.rs:1045-1050 | an id that may be published can be below the nil id; a fresh device then stays on the built-in bundle for ever although that bundle is on offer to it |
| `Deployment.EveryDeviceSettles` | src/routes/check.rs:1157-1182 | whatever requests built the store, every device that keeps checking settles at its destination, and only its first answer can be UPDATE |
| `Deployment.PublishedReachesEveryone` | src/routes/check.rs:1069-1125 | from POST to device: a fully rolled out bundle published with the greatest id is where every ordinary device ends, from any current bundle, except a fresh device when that id is below the nil id |
| `Shipping.CandidateIsSeen` | src/routes/check.rs:1157-1182 | every candidate is a stored row of the check's app, platform and channel that is enabled, not below the minimum id and matched by version or fingerprint; it carries that row's id, and is for the device exactly by that row's rollout and target cohorts |
| `Shipping.SeenIsCandidate` | src/routes/check.rs:1157-1182 | ... and every such row is a candidate |
| `Shipping.UpdateNamesNewestRow` | src/routes/check.rs:1069-1125 | UPDATE is sent exactly when the check sees a newer row that is for the device, and names the newest such row |
| `Shipping.RollbackNamesNextRow` | src/routes/check.rs:1069-1125 | ROLLBACK and the reset are sent exactly when no row from the device's own bundle upwards is for it; ROLLBACK names the next older row the check sees, and the reset means there is none |
| `Shipping.ShippedIsNewest` | src/routes/check.rs:1013-1021 | a bundle published with the greatest id is the newest candidate, with the rollout and the target cohorts that were sent |
| `Shipping.ShippedGoesToItsDevices` | src/routes/check.rs:1069-1125 | an older device is sent the published bundle exactly when it is for that device by the published rollout or target cohorts, and such a device ends on it from anywhere, up to the nil id |
| `Shipping.TargetedDeviceIsServed` | src/cohort.rs:151-163 | a device whose cohort has the normal form of a published target cohort is offered the bundle and ends on it, at any rollout |
| `Shipping.StagedShare` | src/cohort.rs:134-182 | the fleet law from POST to device: published with the greatest id, rollout n and no targets, a bundle is where the devices of n numeric cohorts end, plus those held, minus those caught |
| `Shipping.StagedShareIsExact` | src/cohort.rs:134-182 | exactly n cohorts, when the id is above the nil id and every device starts below it |
| `Shipping.ShippedIsShown` | src/routes/check.rs:878-949 | the answer that names a published bundle shows its hash, message, signed URL, force flag and manifest as they were sent |
| `Pagination.ListBundles` | src/routes/api.rs:1076-1336 | the handler answers with the requested window of the filtered, descending listing and the numbers and cursors that describe it |
| `Pagination.FetchPage` | src/routes/api.rs:1170-1273 | query, reversal and start-index count together return the window's rows and the true index of its first row |
| `Pagination.WindowDescribesPage` | src/routes/api.rs:822-845 | page number, page count and flags equal their recursive definitions; 64-bit saturation never shows |
| `Pagination.PageOffsetIsExact` | src/routes/api.rs:1170-1187 | the clamped, saturating offset is the start of the requested page, or of the last page for a number past the end |
| `Pagination.TotalPagesCounts` | src/routes/api.rs:822-845 | the rounded-up quotient is the number of pages it takes to hold the rows |
| `Pagination.SelectedAbove` | src/routes/api.rs:872-913 | the rows above a cursor are a prefix of the listing, found by filter and sort alone |
| `Pagination.SelectedBelow` | src/routes/api.rs:872-913 | the rows below a cursor are a suffix of the listing |
| `Pagination.CountAboveRow` | src/routes/api.rs:1243-1273 | counting the rows above a page's first row gives that row's index |
| `IdOrder.OrderDescSorts` | src/routes/api.rs:1189-1234 | sorting by id is strictly descending and keeps exactly the rows, under the case-insensitive key |
| `IdOrder.DescendingIsUnique` | src/routes/api.rs:1189-1234 | a set of rows has one descending order, so any correct sort gives the same page |
| `Walks.NextContinues` | src/routes/api.rs:1040-1070 | `nextCursor` as `after` opens the window that starts where the page ended |
| `Walks.PreviousPrecedes` | src/routes/api.rs:1040-1070 | `previousCursor` as `before` gives exactly the min(limit, s) rows just above a page starting at s > 0 |
| `Walks.BackAndForth` | src/routes/api.rs:872-913 | going back a page and following its `nextCursor` continues with the row right after it |
| `Walks.ForwardWalkTiles` | src/routes/api.rs:1040-1070 | a walk along `nextCursor` visits every row of the filtered table exactly once in descending order, on as few pages as can hold them |
| `Walks.ForwardWalkPage` | src/routes/api.rs:1243-1273 | page i of that walk starts at row i * limit, calls itself page i + 1, carries the same total and page count, and its flags are right |
| `Walks.BackwardWalkTiles` | src/routes/api.rs:1040-1070 | a walk along `previousCursor` from any page covers everything from the top down to that page's end |
| `Walks.HasNextAgainstCursor` | src/routes/api.rs:822-845 | on a page with rows `hasNextPage` implies a `nextCursor`; the converse fails exactly on a `before` page cut short by the top of the listing when one full page would hold every row |
| `Walks.ShortBeforePage` | src/routes/api.rs:1040-1070 | a listing of three rows on which the converse fails |
| `Pages.NumberedPage` | src/routes/api.rs:1170-1187 | page number p holds the rows from (p - 1) * limit on, and its number, total and flags are right |
| `Pages.NumberPastTheEnd` | src/routes/api.rs:1170-1187 | a number past the end shows the last page |
| `Pages.CursorsThatDoNotCount` | src/routes/api.rs:1150-1187 | a page number switches both cursors off, and an empty cursor is no cursor |
| `Pages.AfterShows` | src/routes/api.rs:872-913 | `after` shows the first rows below its cursor, whatever `before` says |
| `Pages.BeforeShows` | src/routes/api.rs:872-913 | `before` alone shows the last rows above its cursor |
| `Pages.ExhaustedAfterTurns` | src/routes/api.rs:1040-1070 | with no row below it an `after` cursor comes back as the previous cursor, which leads to the last rows above it |
| `Pages.ExhaustedBeforeTurns` | src/routes/api.rs:1040-1070 | with no row above it a `before` cursor comes back as the next cursor, which leads to the first rows below it |
| `Json.MergeBundleMetadata` | src/routes/api.rs:1863-1902 | the loops over keys and indices compute the deep merge |
| `Json.MergeAt` | src/routes/api.rs:1863-1902 | path by path: what the patch reaches is merged there, what it does not reach is the stored value unless the patch replaced it further up |
| `Json.PatchLeavesArrive` | src/routes/api.rs:1863-1902 | every leaf of the patch is found at its path in the result |
| `Json.StoredValuesStay` | src/routes/api.rs:1863-1902 | no stored value is lost where the patch neither reaches nor replaces it |
| `Json.MergeShape` | src/routes/api.rs:1863-1902 | result keys are the union, array tails survive, and merging the empty object into an object is the identity |
| `Json.MergeTwice` | src/routes/api.rs:1863-1902 | merging the same patch twice is merging it once, for all JSON values |
| `Json.ErasesExactly` | src/routes/api.rs:1863-1902 | a merge yields the patch itself exactly when the patch names or replaces all the stored value holds, all the way down |
| `Json.CombinesExactly` | src/routes/api.rs:1863-1902 | two merges in a row are the merge of what they merge to exactly when, wherever the second patch replaces what the first holds instead of merging into it, it leaves nothing of the stored value there |
| `Json.PatchMetadataTwice` | src/routes/api.rs:158-187 | so is patching the stored column twice, through the re-reading of the stored value |
| `Json.CohortsRoundTrip` | src/routes/api.rs:112-135 | a written cohort list is read back unchanged |
| `Json.CohortColumnForms` | src/routes/api.rs:112-135 | a stray item that is no string is skipped, an array held as text is read like the array, and anything else is no cohort list |
| `Json.MetadataColumnForms` | src/routes/api.rs:158-187 | metadata is read exactly when the column holds an object, or text that reads as one |
| `StoreHandlers.GetBundlePatches` | src/routes/api.rs:1394-1437 | what is no array gives no patches; an array of objects that spells out a list with distinct bases under the four keys gives that list; in general, the first well-formed entry per base |
| `StoreInvariant.FirstPerBaseIsRight` | src/routes/api.rs:1394-1437 | one entry per base without regard to case, each the first that names its base, and no well-formed base is missing |
| `PatchLists.ReadsWhatIsDescribed` | src/routes/api.rs:1409-1427 | an item reads as a patch exactly when `baseBundleId`, `baseFileHash`, `patchFileHash` and `patchStorageUri` hold its four fields, and as none exactly when one of these is missing or no string |
| `PatchLists.SpelledListIsRead` | src/routes/api.rs:1394-1437 | an array that spells out a list with distinct bases is read as that list |
| `PatchLists.SuperfluousIsDropped` | src/routes/api.rs:1409-1433 | dropping an item that is malformed, or whose base an earlier item names, changes nothing |
| `StoreHandlers.Database.constructor` | migrations/20260811000000_tenant_scoped_primary_keys.sql:53-76 | a new store is empty and consistent |
| `StoreHandlers.Database.ExecuteUpsert` | src/routes/api.rs:1598-1652 | the upsert as the tables change: constraints checked, the stored spelling of a taken id kept, nothing changed on failure |
| `StoreHandlers.Database.ExecuteInsertPatch` | src/routes/api.rs:1700-1726 | the insert as the tables change: refused on a taken key or a missing foreign key, nothing changed on failure |
| `StoreHandlers.Database.SavePatches` | src/routes/api.rs:1654-1728 | delete-then-insert, statement by statement, has the effect of replacing the patch list |
| `StoreHandlers.Database.CreateBundles` | src/routes/api.rs:1519-1742 | the publishing transaction, statement by statement, has the specified answer and state; a failure anywhere rolls back everything |
| `StoreHandlers.Database.UpdateBundle` | src/routes/api.rs:2016-2218 | so has the patching transaction |
| `StoreHandlers.Database.DeleteOne` | src/routes/api.rs:2334-2357 | deletion cascades through both foreign keys and always succeeds |
| `Acceptance.CreatedExactly` | src/routes/api.rs:1519-1728 | POST is accepted exactly when the body holds at most 1000 bundles, each within the limits, whose patches start from bundles the app has by then; otherwise it is a bad request and changes nothing |
| `Acceptance.ValidBundleExactly` | src/routes/api.rs:1467-1495 | the limits on a bundle, exactly: id of 1..36 letters, digits, hyphens and underscores, texts of at most 65535 bytes in UTF-8, a version or fingerprint that is not blank, rollout in 0..1000, at most 1000 valid cohorts, well-formed patches |
| `Acceptance.ValidCohortExactly` | src/cohort.rs:119-132 | a cohort is valid exactly when its normal form is a numeral of 1..1000 or a slug of small letters, digits and hyphens |
| `Acceptance.PatchedExactly` | src/routes/api.rs:2016-2218 | PATCH succeeds exactly when the body is within the limits, the bundle exists, the merged row keeps to them and the bases are stored; it is not found exactly when only the bundle is missing; nothing but success changes the store |
| `Acceptance.EmptyPatchIsAccepted` | src/routes/api.rs:2016-2218 | a body that mentions nothing is accepted for every stored bundle and changes nothing |
| `StoreHandlers.Database.Serve` | src/routes/api.rs:1519-2357 | any request keeps the store consistent, never fails for the database's reasons, and changes nothing when refused |
| `StoreInvariant.PatchKeyIsInjective` | src/routes/api.rs:371-389 | "bundle:base" names one pair of bundles, since ids hold no colon |
| `StoreInvariant.OnePatchPerPair` | migrations/20260811000000_tenant_scoped_primary_keys.sql:53-76 | a consistent store has at most one patch from one bundle to another |
| `StoreInvariant.InsertGuardsKeys` | migrations/20260811000000_tenant_scoped_primary_keys.sql:53-76 | the insert statement succeeds exactly when its key is free and both foreign keys then still hold |
| `StoreInvariant.InsertPatchesExactly` | src/routes/api.rs:1654-1728 | inserting a list fails exactly on a base the app does not have, as the caller's mistake, and otherwise adds exactly the listed rows |
| `StoreInvariant.SaveBundleExactly` | src/routes/api.rs:1578-1728 | saving one bundle writes exactly its row and exchanges exactly its patches, and keeps every constraint |
| `StoreInvariant.UpdateExactly` | src/routes/api.rs:2016-2331 | PATCH is refused by its checks or for a missing base, and otherwise stores exactly the merged row and the exchanged patches; skipping the empty UPDATE loses nothing |
| `StoreInvariant.UpdatedRowIsOk` | src/routes/api.rs:191-227 | the merged row meets the persistence constraints, the CHECK constraints and the column widths |
| `StoreInvariant.DeleteKeepsStore` | src/routes/api.rs:2334-2357 | deleting keeps both foreign keys |
| `StoreRuns.PerformIsSafe` | src/routes/api.rs:1519-2357 | one request keeps the invariant: keys, both foreign keys, one position per patch, rollout in 0..1000, a non-blank version or fingerprint, valid cohorts, column widths |
| `StoreRuns.ReachableStoresAreOk` | src/routes/api.rs:1519-2357 | every store reached from the empty one by any sequence of requests satisfies it |
| `StoreRuns.PerformIsLocal` | src/routes/api.rs:1506-1517 | a request's answer and effect depend on its own app's rows only, and no row of another app changes |
| `StoreRuns.TenantsAreAlone` | src/routes/api.rs:1506-1517 | non-interference: after any requests of any apps each app's rows are what the requests under its name, in any spelling of case, would have produced alone |
| `StoreRuns.CaseTwinsShareRows` | migrations/20260811000000_tenant_scoped_primary_keys.sql:53-76 | app names that differ in case only are one app: its rows are the same, and either name deletes them |
| `StoreRuns.SpellingStays` | src/routes/api.rs:1598-1652 | a stored bundle keeps the spelling of its app and id until it is removed, whatever spelling later requests use |
| `StoreRuns.AnswersAreAlone` | src/routes/api.rs:1506-1517 | ... and so is every answer it gets |
| `StoreIdempotence.SavedAll` | src/routes/api.rs:1519-1742 | after POST every key holds the last bundle sent for it, or what was there before |
| `StoreIdempotence.PostTwice` | src/routes/api.rs:1519-1742 | repeating an accepted POST gives the same answer and the same store, also when one body names a bundle several times |
| `StoreIdempotence.PatchTwice` | src/routes/api.rs:2016-2218 | repeating an accepted PATCH gives the same answer and the same store |
| `StoreIdempotence.DeleteExactly` | migrations/20260811000000_tenant_scoped_primary_keys.sql:68-76 | deletion removes the bundle and exactly the patches that belong to it or start from it, and repeating it changes nothing |
| `StoreIdempotence.DeleteUndoesPost` | src/routes/api.rs:2334-2357 | publishing a bundle under a new id and deleting it restores the store |
| `Columns.PatchOfEverythingIsPost` | src/routes/api.rs:2226-2331 | a PATCH that names every field writes the row a POST would write, except that metadata is merged and an absent cohort list becomes the JSON null |
| `Columns.PatchesCombine` | src/routes/api.rs:2016-2331 | two PATCHes in a row write the row of one combined PATCH exactly when their metadata combines over what is stored and re-read; an empty PATCH changes nothing |
| `Columns.MetadataCombinesExactly` | src/routes/api.rs:2060-2069 | ... and for the metadata column alone, with absent, null, object, string and other values of either body |
| `Columns.SeparateKeysCombine` | src/routes/api.rs:2016-2331 | bodies whose metadata objects name different keys always combine |
| `Columns.MetadataDoesNotCombine` | src/routes/api.rs:2060-2069 | the condition can fail on a row: a number followed by an empty object leaves no metadata, the combined body leaves all of it |
| `Columns.TwoPatchesAreOne` | src/routes/api.rs:2016-2331 | in the store, two accepted PATCHes have the answer and the effect of one combined PATCH exactly when their metadata combines; rows, patches and checks give no other difference |
| `ListView.ListAgreesWithItem` | src/routes/api.rs:1275-1318 | the batched patch query, split per bundle, gives each bundle the same ordered list as its own query, whatever order the database picks among ties |
| `ListView.SavedPatchesAreRead` | src/routes/api.rs:473-502 | a saved bundle is read back with the patches it was saved with, in their order |
| `ListView.GetAfterPost` | src/routes/api.rs:235-272 | GET after POST shows every field as sent, defaults filled in, metadata as it is read back, the patches in order and the first one mirrored; metadata comes back as sent exactly when it was sent as an object |
| `ListView.PatchesAfterPost` | src/routes/api.rs:1394-1437 | said of the request's JSON: an array that spells out a list with distinct bases comes back as that list, and what is no array as no patches |
| `ListView.PatchesAfterPatch` | src/routes/api.rs:2016-2218 | after an accepted PATCH that sends such an array the bundle is shown with that list, after one that mentions no patches with those it had |
| `Semver.PartialVersionOf` | src/semver.rs:96-138 | the loop over the parts reads a partial version as specified |
| `Semver.RangeClauseOf` | src/semver.rs:281-306 | the loop over the tokens reads a clause as specified |
| `Semver.SatisfiesRange` | src/semver.rs:316-335 | the loop over the OR branches decides as specified |
| `Semver.ParsedIsPrefix` | src/semver.rs:96-138 | a parsed partial version has a minor if it has a patch, and always a major |
| `Semver.OneBadBranchSpoilsAll` | src/semver.rs:316-335 | one OR branch that does not parse makes the whole range match nothing |
| `SemverMeaning.ComparatorMeaning` | src/semver.rs:185-279 | the bounds of every comparator admit exactly the versions it means in precedence order, prerelease flags dropped where the program drops them |
| `SemverMeaning.HyphenMeaning` | src/semver.rs:281-306 | a hyphen range runs from the least version of its lower end to the greatest of its upper end |
| `SemverMeaning.CaretKeeps` | src/semver.rs:142-158 | the caret interval is exactly the versions at or above p that keep every component up to the leftmost non-zero specified one, or the last specified one if all are zero |
| `SemverMeaning.TildeKeeps` | src/semver.rs:162-171 | the tilde interval keeps the major and, if given, the minor |
| `SemverMeaning.AgreesInInterval` | src/semver.rs:78-94 | the interval between the two fill-ins is exactly the versions that agree with the specified components |
| `SemverMeaning.BelowWithinAbove` | src/semver.rs:185-205 | every release is below, within or above a partial version, and only one of the three |
| `SemverMeaning.ComparatorsPartition` | src/semver.rs:239-268 | as evaluated, `<p`, `=p` and `>p` partition the releases, and `>p`/`<=p` and `>=p`/`<p` are complements |
| `SemverSyntax.TermReadsBack` | src/semver.rs:96-138 | reading a printed version gives the version back, with any wildcards and any prerelease or build tag |
| `SemverSyntax.ClauseReadsBack` | src/semver.rs:207-306 | reading a printed clause gives the bounds of its tree |
| `SemverSyntax.SpaceDropsOperator` | src/semver.rs:207-225 | a space after an operator is accepted and drops the operator: `>= 1.2.3` means what `1.2.3` means |
| `SemverEdges.PrefixedTerm` | src/semver.rs:96-102 | one leading `v` of either case and white space around a version are dropped, a second `v` is refused |
| `SemverEdges.BadPartIsRefused` | src/semver.rs:104-130 | a part that is no number below 2^64 without superfluous zeros, before any wildcard, makes the text no version, and so does a fourth part |
| `SemverEdges.NothingBehindWildcard` | src/semver.rs:110-130 | what follows a wildcard is not looked at, as long as there are at most three parts |
| `SemverEdges.WildcardInFront` | src/semver.rs:110-131 | a wildcard in front of other parts is no version |
| `SemverEdges.TwoHyphensAreRefused` | src/semver.rs:281-306 | a clause with two spaced hyphens does not parse |
| `SemverEdges.EverythingIsAdmitted` | src/semver.rs:281-335 | a blank range, a lone wildcard and an operator before a wildcard admit every version |
| `SemverSyntax.SatisfiesMeansMember` | src/semver.rs:316-335 | on the text of any range, evaluation decides membership in the set of versions the range stands for |
| `Coerce.CoerceVersion` | src/semver.rs:20-59 | the character loop coerces a version as specified |
| `Coerce.CoerceFindsVersion` | src/semver.rs:20-59 | a three-part version is found behind any text without digits and whatever follows it |
| `Coerce.CoerceFillsShort` | src/semver.rs:20-59 | missing components are zero, also behind a trailing dot |
| `Coerce.UnreadableIsRefused` | src/semver.rs:11-59 | a superfluous zero or a number from 2^64 on in the first, second or third component makes the whole text no version, behind any text without digits and whatever follows |
| `SemverEdges.NoDigitsNoVersion` | src/semver.rs:20-30 | a client's version text without a digit names no version |
| `Uri.EncodeUriComponent` | src/routes/check.rs:175-185 | the loop over the bytes computes the encoding of the specification |
| `Uri.DecodeUndoesEncode` | src/routes/check.rs:175-185 | percent-decoding (section 2.1 of RFC 3986) undoes the encoding, for every byte sequence |
| `Uri.EncodedAlphabet` | src/routes/check.rs:175-185 | the output holds unreserved characters and escapes only, so no slash; and it leaves the bytes as they are exactly when all are in the unreserved set of section 2.3 of RFC 2396 |
| `Uri.EscapesAreUpperCase` | src/routes/check.rs:175-185 | every escape is a percent sign and two hexadecimal digits in upper case |
| `Uri.Utf8IsInjective` | src/routes/check.rs:175-185 | the UTF-8 encoding under the escapes is injective, so decoding recovers the characters |
| `Uri.KeyReadsBack` | src/routes/check.rs:197-208 | splitting the relative key at its slashes and decoding the pieces gives exactly the non-empty segments of the slash-normalised path, and no segments give the empty key |
| `Uri.SameKeySameSegments` | src/routes/check.rs:197-208 | two paths share a key exactly when they have the same non-empty segments |
| `Artifacts.ContentKeysAgree` | src/routes/check.rs:215-253 | two content-addressed assets share an object exactly when shard and hashed name have the same segments; without slashes that is, when shard and hashed name agree |
| `Artifacts.BrotliRule` | src/routes/check.rs:155-166 | an asset is brotli-compressed exactly when its path ends in a component made of `index.`, at least one character other than a slash, and `.bundle` |
| `Layout.SegmentsPieceByPiece` | src/routes/check.rs:197-203 | the segments of a path are its non-empty pieces between slashes of either kind |
| `Layout.PlannedAssetsAreStoredRight` | src/routes/check.rs:215-253 | every planned asset carries the target's hash, is compressed exactly when the brotli rule matches, and lies at origin + base path without trailing slashes + "/" + the key of its segments: `sha256`, shard and hashed name under a base that ends in `/assets`, else those of the path, with `.br` when compressed |
| `Layout.ContentAddressed` | src/routes/check.rs:229-252 | for a hash and an extension without slashes that key is exactly `sha256`, the first two characters of the hash, and the hash with the extension |
| `Layout.ExtensionIs` | src/routes/check.rs:229-236 | the extension is `.br`, or the text from the last dot on, or nothing |
| `Artifacts.PlanExists` | src/routes/check.rs:397-472 | a right plan exists whenever the columns and the asset base allow one, so the claims about right plans are never empty |
| `Response.MakeResponse` | src/routes/check.rs:878-949 | the body names the bundle, carries its signed URL and the resolved artifacts, and forces the update on a rollback; it is denied only when the URL cannot be signed or the resolution denies it |
| `Response.EvaluateUpdate` | src/routes/check.rs:1069-1125 | one check answers as the decision says: nothing, the reset, or the body of the chosen bundle |
| `Response.NullUrlMeansReset` | src/routes/check.rs:886-905 | the null URL, which makes a device delete its downloads, never comes with UPDATE: it is sent exactly for the reset, with the nil id, and nothing else in it, and only when no candidate is on offer; a rollback is always forced |
| `Response.AnswerShowsDetails` | src/routes/check.rs:878-949 | any other answer names a candidate and shows its columns: UPDATE is a step up, ROLLBACK a forced step down |
| `Response.HealthyStorageServes` | src/routes/check.rs:505-519 | storage that signs every URI and fails no read denies no device |
| `Response.FailuresOnlyDelay` | src/routes/check.rs:1066-1125 | after any mix of answered and failed checks, with storage changing in any way between them, a device is where the answered checks alone would have led it |
| `Response.FlakyRunsSettle` | src/routes/check.rs:1066-1125 | convergence survives storage failures: once more checks were answered than there are candidates, the device is at rest where it belongs |
| `Serving.ShortListingCanBeStored` | src/routes/api.rs:191-227 | the rows of the listing on which `nextCursor` comes without `hasNextPage` meet every constraint of the store |
| `Serving.ReachableWalkCovers` | src/routes/api.rs:1076-1336 | whatever requests built the store, walking an app's bundles along `nextCursor` meets every bundle that passes the filter, and no other, once and in descending order |
| `Serving.CandidateFits` | src/routes/check.rs:351-356 | searched among the stored patches in any order, the record a plan may use is that of the patch from the device's own bundle to the target, and there is none exactly when no complete such patch is stored |
| `Serving.FitIsUnique` | src/routes/check.rs:720-745 | at most one stored patch leads from the device's bundle to the target |
| `Serving.PlannedPatchFits` | src/routes/check.rs:397-472 | a patch is planned exactly when such a patch is stored and the target has one `.bundle` asset, and it is that patch on that asset |
| `Serving.ServedPatchesApply` | src/routes/check.rs:520-875 | every patch in a response starts from the very bundle the device runs and is the stored patch from there to the bundle the response names |
| `Serving.RecordsAreWhatWasSent` | src/routes/api.rs:1409-1433 | the records a check finds for a published bundle are the JSON items sent with it, field by field |
| `Serving.ResponseShowsRow` | src/routes/check.rs:878-949 | an answer shows hash, message, force flag and signed archive URL of the stored row it names |
| `Serving.ResponseShowsDifference` | src/routes/check.rs:520-875 | its artifacts are the difference between the manifest behind the stored target's URI and the one behind the device's own row |
| `Serving.ResponseShowsFiles` | src/routes/check.rs:782-870 | its files are the signed objects that the storage layout puts below the stored target's asset base |
| `Response.OneUpdateAtMost` | src/routes/check.rs:1066-1125 | after one answered check no later answer is an UPDATE |
| `Artifacts.PlanManifestArtifacts` | src/routes/check.rs:397-472 | for every iteration order of the hash map the program returns a right plan, or none exactly when the columns or the asset base do not allow one |
| `Artifacts.PlanIsUnique` | src/routes/check.rs:397-472 | there is one right plan, so the iteration order does not show |
| `Artifacts.PlanRebuildsTarget` | src/routes/check.rs:397-472 | laying the planned assets over the current assets the target still names gives exactly the target manifest |
| `Artifacts.NoAssetIsSpare` | src/routes/check.rs:397-472 | without any one of its assets it does not |
| `Artifacts.SelectPatch` | src/routes/check.rs:321-356 | a patch is planned exactly when a usable record names the current bundle and one asset is the only `.bundle` |
| `Artifacts.FindPatchIsFirst` | src/routes/check.rs:351-356 | the record chosen is the first that names the current bundle |
| `Resolution.SignAssets` | src/routes/check.rs:520-875 | signing succeeds exactly when the patch can be signed and every asset it does not cover can be too |
| `Resolution.ResolveManifestArtifacts` | src/routes/check.rs:520-875 | absent manifests mean no artifacts, failed reads or signatures deny the update, and otherwise the manifest, its hash and one entry per planned asset come together, for every behaviour of the storage |
| `Delivery.AnswerIsDifference` | src/routes/check.rs:433-440 | an answer with artifacts holds an entry, with the target's hash, for exactly the assets the device's own manifest does not have; laid over the device's assets they give the target; manifest URL and hash are those of the columns |
| `Delivery.EntriesOffer` | src/routes/check.rs:782-870 | every entry offers its file, signed where the storage layout puts it, or its patch, or both; a patch comes exactly with the target's one `.bundle` asset when the first record that names the device's bundle is complete |
| `Delivery.NoArtifactsExactly` | src/routes/check.rs:520-775 | the update comes without artifacts exactly when no manifest is named or none is there, it is malformed, or a column is blank, or something changed and the asset base is no URL |
| `Delivery.DeniedExactly` | src/routes/check.rs:520-875 | the check is denied exactly when a manifest cannot be read or signed, or the plan holds a patch, or an asset no patch covers, that cannot be signed |

## Left out

- Characters are Unicode scalar values, but lower-casing is ASCII only; the program lower-cases cohort names with full Unicode mappings.
- Cohort.GcdOf: requires arguments above the least 32-bit number, because the absolute value of that number overflows in the program; its callers pass 1..1000.
- Cohort.ModularInverse: requires a modulus of at most 2^30, beyond which the double remainder overflows; the only caller passes 1000.
- Rollout.RolloutShuffleParameters: the two string constants appended to the bundle id are those of the program, but the hash counts scalar values and says nothing about clients that hash UTF-16 units.
- Walks.ForwardWalkTiles: the table does not change during the walk. That ids are distinct and not empty is proved for every store built by requests (`Serving.ReachableWalkCovers`), for tables of at most 2^63 - 1 rows.
- Pagination.ListBundles: the request has passed the query-parameter parsers (limit 1..100, page at least 1); those parsers, and the building of the filter from channel, platform, enabled and id parameters, are not modelled: the filter is any predicate on rows.
- SemverSyntax.SatisfiesMeansMember: components stay below 2^64 - 1, where the unchecked `+ 1` of the bounds overflows; the canonical text writes wildcards after the numbers only, no leading `v`, and no space after an operator. The parser, which is modelled in full, accepts the others too; `SemverSyntax.SpaceDropsOperator` and `SemverEdges` say what they mean.
- SemverMeaning.ComparatorMeaning: prerelease versions are compared only with releases, because the subject of a range is always a coerced release; prerelease identifiers are not ordered.
- StoreHandlers.Database.UpdateBundle: requests are sequential; the program reads the row before it opens the transaction, and interleavings of two PATCHes are not modelled.
- StoreHandlers.Database.ExecuteUpsert: of the database only keys, foreign keys, CHECK constraints and transactions are modelled; connection failures, creation times, collation beyond ASCII case, and trailing blanks of CHAR columns are not.
- The reader of JSON text, the URL parser and the presigner are parameters, so properties hold for any behaviour of theirs.
- Deserialising request bodies, the unwrapping of array bodies and the check that a PATCH body names the same id as its path.
- Json.Json: numbers are reals; JSON number syntax and precision are not modelled.
- Artifacts.PlanManifestArtifacts: the joined path is text appended to the URL's origin; dot segments and the URL library's own normalisation are not modelled.
- Response.EvaluateUpdate: an app without configuration, which gets no update, and the choice between an empty and an explicit no-update body are left out, and so are error texts and status codes.
- Serving.ServedPatchesApply: the database lookups succeed; a lookup that fails leaves no current bundle or no patches, which `Resolution.ResolveManifestArtifacts` covers, and then no patch is served.
- Routing, authentication, metrics, logging, rate limiting and configuration.
- Sorting (`sort_by`, `ORDER BY`) and reversal are functions on sequences; that they happen in place is not captured.
