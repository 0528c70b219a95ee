# Verified model of the marketplace assistant's core

These modules model the state-keeping core of the repository as in-memory tables, step systems and
loops, and prove what the code guarantees over whole runs. Classes stand for the source's repositories,
sessions, handles and clients; their methods follow the source branch by branch and are proved against
specification functions, about which the theorems are stated. SQL predicates are written out, time and
ids are integers, and whatever the outside world decides (replies, commits, interleavings, the choice of
a database among equal rows) is a parameter or an arbitrary choice.

| module | models |
|---|---|
| CostHistory | product cost rows: closing, appending, and the price lookup |
| DistributedLock | the Redis lock: a step system of many handles, and the handle object |
| Orders, OrderDedup, WbIdentity, RowHistories | order upsert, one row per sale over whole runs, and each row as a fold of its own arrivals |
| RowColumns | what each column of a row shows after any run, read off the arrivals |
| OrdersPaging | the statistics paging loop with its stall guard |
| FbsWindows, FbsPayloads, FbsReordering | 30-day windows against one fetch, for the orders made of the payloads, and exactly when they agree |
| Delivery | send, mark, commit, roll back |
| DuplicateRepair | the repair tool for orders stored twice |
| MigrationChain | the migration chain check |
| UserRace | get-or-create under concurrent inserts |
| Products, SalesEvents | rows as folds of their call histories |
| RetryLoop, OzonSplit, Cache | request retries, fee split, read-through cache |

`dafny verify dfyconfig.toml` checks everything.

## Where the code differs from what one would expect

- Cooldown: the marker holds whole seconds, so two acquisitions can be up to one second closer than the
  cooldown (`CooldownCutShortExactly`, with `CooldownCutShortExample`).
- A lock handle that acquires again while it holds the key can no longer release or extend it
  (`ReacquireForfeitsRelease`).
- One row per srid needs every order number to keep its srid; a srid that comes late breaks it
  (`LateSridMakesDuplicates`), and `SridsStayUniqueExactly` says exactly which calls do.
- The paging loop stops short exactly when one timestamp fills a whole page (`SyncCompleteExactly`, with
  `StalledSourceExample`).
- A row whose commit fails is counted both as loaded and as skipped (`CountersAreExact`).
- An accepted notification whose commit is lost is counted as failed and sent again (`SentIsMarked`).
- The pending list also depends on the sale model, which an overwriting upsert may change
  (`UpsertMovesPendingExactly`, with `MovedWarehouseLeavesList`); `PendingListExactly` says exactly which orders are on it.
- The repair tool stops, raising, at a pair whose live order has no item when a profit snapshot belongs to the
  statistics row (`RefusedExactly`, `EndsNormallyExactly`, `RefusedPairExample`): deleting the item, the session first clears the
  snapshot's order_item_id (app/models/orders.py:159 names no delete rule), which must not be null
  (app/models/finance.py:45-48). Later pairs are not repaired (`CleanExactlyWhenItEnds`).
- A merge takes the item link off the statistics row's sales events (`EventLinksExactly`), by the foreign
  key in app/models/orders.py:175-177.
- The 30-day windows can leave another row than one fetch would when a sale is listed twice and, at a second
  where windows meet, an entry created before it is listed after one created at or after it
  (`WindowsSafeExactly`, with `BackwardsEntryExample`), or when a sale has two order numbers and the windows
  meet another of them first.
- The repair tool reads `live_order.items` (app/cli/repair_wb_duplicate_orders.py:105) of rows got without them; the
  relationship (app/models/orders.py:97) loads lazily, which an asynchronous session cannot do there, and a row
  still in the session (app/core/db.py:40) would not show items copied for an earlier pair. The model reads a
  row's items afresh at every merge, as the tool is meant to work.
- Enrichment and repair file the statistics payload by changing the stored payload object in place
  (app/repositories/orders.py:265-272, app/cli/repair_wb_duplicate_orders.py:86-92), on a column without mutation
  tracking (app/models/orders.py:95), so a session may not notice the change of a payload that was not empty. The
  model stores it, as both are meant to work.
- The repair query compares the marketplace with `'wb'`, while the stored enum value is written
  differently; the model reads it as "the row is Wildberries", as the tool is meant to work.
- The chain check promises a single head, but several only draw a warning and a cycle passes silently
  (`CyclePassesTheCheck`).
- A request answered with a status of 600 or more is retried, but its body is returned if it comes last
  (`BodyExactly`).

## Model

| member | source | states |
|---|---|---|
| `CostHistory.OpenRowsCountLongestNonIncreasing` | app/repositories/products.py:255-283 | After any calls in any date order, with ties and every choice the database may make among them, a product has exactly as many open rows as its longest non-increasing subsequence of dates has members. |
| `CostHistory.OneOpenRowIffStrictlyIncreasing` | app/repositories/products.py:255-283 | A product has exactly one open row if and only if it has a cost and its dates arrived strictly increasing. |
| `CostHistory.OpenRowsAreFewestChains` | app/repositories/products.py:255-283 | No split of the calls into chains of strictly increasing dates needs fewer chains than there are open rows. |
| `CostHistory.PatienceWitness` | app/repositories/products.py:271-283 | For every date threshold there is a non-increasing subsequence as long as the open rows at or above it are many. |
| `CostHistory.PatienceBound` | app/repositories/products.py:271-283 | For every date threshold no non-increasing subsequence is longer than the open rows at or above it are many. |
| `CostHistory.RowsFormChains` | app/repositories/products.py:255-283 | The rows fall into disjoint chains: each closed row names one later, later-dated row of its product, and its valid_to is that row's valid_from. |
| `CostHistory.OneChainPerOpenRow` | app/repositories/products.py:255-283 | A product has exactly one chain for each open row. |
| `CostHistory.NoGapAfterFirstDate` | app/repositories/products.py:255-283 | From the earliest recorded date on, every instant is covered by a row. |
| `CostHistory.LatestStartedCovers` | app/repositories/products.py:255-283 | The row with the greatest valid_from not after an instant covers that instant. |
| `CostHistory.ActualCostIsLatestStarted` | app/services/unit_economics/cost_service.py:37-46 | The price query, which looks at valid_to, picks exactly the rows that a query by valid_from alone would pick. |
| `CostHistory.LatestIsOpen` | app/repositories/products.py:285-292 | The row with the greatest valid_from is open. |
| `CostHistory.RowsMirrorInputs` | app/repositories/products.py:255-283 | Row by row and column by column, the table holds what each call gave, for ever: product, prices, package, additional cost, tax rate, date and comment. Only valid_to is written later. |
| `CostHistory.ProductCostRepository.CloseCurrentCost` | app/repositories/products.py:271-283 | Sets valid_to of one open row of the product with the greatest valid_from strictly before the date, whichever of several; changes nothing exactly when there is none. |
| `CostHistory.ProductCostRepository.AddCost` | app/repositories/products.py:255-269 | After that closing, appends an open row that holds the call's data column by column, and keeps the table equal to the replay of all calls. |
| `CostHistory.ProductCostRepository.LatestForProduct` | app/repositories/products.py:285-292 | Returns a row of the product with the greatest valid_from of all its rows, and that row is open; nothing exactly when the product has no row. |
| `CostHistory.ProductCostRepository.GetActualCost` | app/services/unit_economics/cost_service.py:37-46 | Returns a row of the product with the greatest valid_from of those not after the instant, nothing exactly when there is none: closing rows never hides a price. |
| `DistributedLock.InvAlways` | app/utils/distributed_lock.py:48-163 | Every interleaving of acquire, release, extend, expiry and clock steps by any number of handles keeps the invariant: tokens belong to one handle each, and an unexpired lease is the stored entry. |
| `DistributedLock.InvStep` | app/utils/distributed_lock.py:48-163 | Each single step keeps that invariant. |
| `DistributedLock.StoredStep` | app/utils/distributed_lock.py:69-163 | A step leaves every other handle alone, and changes the entry only by taking a free key or by acting on the stepping handle's own token. |
| `DistributedLock.AtMostOneHolder` | app/utils/distributed_lock.py:65-90 | At most one handle's token matches the live stored value. |
| `DistributedLock.OthersNeverTouchAHeldKey` | app/utils/distributed_lock.py:69-163 | While a handle holds the key, no step of another handle and no clock move changes the entry. |
| `DistributedLock.LateCallsAreHarmless` | app/utils/distributed_lock.py:94-163 | A release or extend by a handle that no longer holds the key leaves the entry and all other handles as they are. |
| `DistributedLock.MutualExclusion` | app/utils/distributed_lock.py:65-183 | While every holder is within its (extended) lease, no two are inside the section together. |
| `DistributedLock.EntryFindsSectionEmpty` | app/utils/distributed_lock.py:69-85 | Whoever takes the key finds everybody else who is inside past the end of their lease. |
| `DistributedLock.EntersExactlyWhenUnlocked` | app/utils/distributed_lock.py:69-90 | A handle's SET attempt makes it the holder, inside for a full lifetime, if and only if the key is not locked; otherwise it only uses up an attempt. |
| `DistributedLock.NoHandleStuck` | app/utils/distributed_lock.py:48-183 | In every state an idle handle can begin with a token nobody has drawn or is refused by the cooldown, never both; one in the loop can try or give up; and no release, extension or end of a section waits for anyone. |
| `DistributedLock.LockedWhileHeld` | app/utils/distributed_lock.py:125-132 | The key is locked while any handle holds it and while anyone is inside on time. |
| `DistributedLock.ExtendNeverShortens` | app/utils/distributed_lock.py:146-154 | A successful extend by at least one second moves the end of the lease later, whichever way the TTL reply was rounded. |
| `DistributedLock.ExtendRenewsTheLease` | app/utils/distributed_lock.py:146-154 | In the step system a successful extend sets the end of the lease to the TTL reply and the additional seconds from now, and that of the section with it. |
| `DistributedLock.ReleaseFreesTheKey` | app/utils/distributed_lock.py:104-122 | In the step system a release by the holder leaves no entry, ends its section and forgets its token. |
| `DistributedLock.LostTokenStaysLost` | app/utils/distributed_lock.py:65-122 | A token a handle has let go of never comes back to it. |
| `DistributedLock.ReacquireForfeitsRelease` | app/utils/distributed_lock.py:65-65 | Acquiring again on a handle that holds the key takes away its power to release or extend the entry it entered with. |
| `DistributedLock.CooldownSpacing` | app/utils/distributed_lock.py:55-83 | In any run, two uninterrupted first-attempt acquisitions are a whole cooldown apart on the seconds clock, hence more than cooldown - 1 seconds apart in real time, whatever the other handles do. |
| `DistributedLock.CheckWaitsOutTheStamp` | app/utils/distributed_lock.py:55-83 | In every interleaving, whoever passes the cooldown check after a stamp does so a whole cooldown later on the seconds clock. |
| `DistributedLock.CooldownCutShortExactly` | app/utils/distributed_lock.py:58-63 | The check passes before a full cooldown of real time if and only if a second boundary is crossed and the later instant is earlier within its second. |
| `DistributedLock.CooldownCutShortExample` | app/utils/distributed_lock.py:58-63 | A run in which a handle with a one-second cooldown acquires the key twice within one millisecond. |
| `DistributedLock.MarkerOutlivesCheck` | app/utils/distributed_lock.py:79-83 | The marker's doubled lifetime never ends before the check would have passed anyway. |
| `DistributedLock.MarkerRemembers` | app/utils/distributed_lock.py:77-83 | After a stamp the marker always holds a stamp no older, in any run. |
| `DistributedLock.DistributedLock.Acquire` | app/utils/distributed_lock.py:48-92 | Outside cooldown it sends SETs for its key with one fresh token and the configured lifetime, a delay apart, and succeeds if and only if one of them found no live entry; it gives up only after max_retries + 1 that each found one. The key then holds the token until the lifetime after that SET ends, whatever other clients do, and the marker, with this second and twice the cooldown to live, is written exactly on success. In cooldown nothing is sent or written. |
| `DistributedLock.DistributedLock.TryAcquire` | app/utils/distributed_lock.py:66-92 | The loop: each SET but the last found the key taken; success if and only if the last found it free, and the key then holds the token for the lifetime. |
| `DistributedLock.DistributedLock.Release` | app/utils/distributed_lock.py:94-123 | Deletes the key exactly when it still holds this handle's token, and forgets the token in every case. |
| `DistributedLock.DistributedLock.Extend` | app/utils/distributed_lock.py:134-163 | Succeeds exactly when the token still owns a key with a second left; the end of the lease is then the TTL reply and the additional seconds from now, which moves it by the additional seconds give or take the second TTL rounds; other keys are left alone. |
| `DistributedLock.DistributedLock.IsLocked` | app/utils/distributed_lock.py:125-132 | True exactly when a SET sent now, with any token and lifetime, would find the key taken, that is, when some token owns it. |
| `DistributedLock.DistributedLock.WithLock` | app/utils/distributed_lock.py:165-183 | Enters exactly if an acquire does; a body that ends within the lease gives the key back itself; afterwards an acquired handle holds no token. |
| `Orders.OrderRepository.ScalarOneOrNone` | app/repositories/orders.py:165-174 | No match, the one match, or an error for several. |
| `Orders.OrderRepository.GetExisting` | app/repositories/orders.py:160-208 | Lookup by number, then for Wildberries by a non-empty srid; two matching rows are an error. |
| `Orders.OrderRepository.EnrichLiveOrder` | app/repositories/orders.py:259-293 | Statistics only fill what a live row lacks, file their payload, and may set the status to cancelled. |
| `Orders.OrderRepository.FillTexts` | app/repositories/orders.py:286-293 | The first item gets a title or article from statistics only where it has none. |
| `Orders.OrderRepository.MergeItems` | app/repositories/orders.py:119-156 | Missing items are added; present ones are overwritten pairwise as far as both lists go. |
| `Orders.OrderRepository.UpsertOrder` | app/repositories/orders.py:90-158 | Computes the table, row position and new-or-not of the specification, about which the results below speak; changes nothing when the lookup meets two rows. |
| `RowColumns.UpsertExactly` | app/repositories/orders.py:90-208 | One call on any table: it raises if and only if two rows match by number, or, none having the number, by the srid of a Wildberries order; it inserts the order column by column if and only if none does; the one that does is, column by column and item by item, enriched if it is a live order and the arrival a statistics order, and overwritten otherwise; no other row changes. |
| `RowColumns.RowShowsHistory` | app/repositories/orders.py:90-293 | Over any consistent run, read off the arrivals of the sale: its row shows source, details, status (unless cancelled since) and payload of the last arrival that was not statistics after a live order; the statistics payload filed last; the first named warehouse and the first warehouse type since; the last posting number, assembly id and srid that an overwriting arrival gave; and, position by position, the amounts and texts last given. |
| `RowColumns.NeverEnrichedShowsLast` | app/repositories/orders.py:237-256 | A sale no statistics order enriches shows its last arrival's status, details, source, warehouse, warehouse type and payload, and the last posting number, assembly id and srid given. |
| `RowColumns.NeverEnriched` | app/repositories/orders.py:100-105 | That holds of every Ozon sale and of every Wildberries sale without statistics after a live order. |
| `RowColumns.HeaderAfter` | app/repositories/orders.py:237-279 | Source, details, status and payload, from the arrivals. |
| `RowColumns.WarehouseAfter` | app/repositories/orders.py:281-283 | The first named warehouse since the last overwriting arrival, else the last numeric one, else what that arrival had. |
| `RowColumns.WarehouseTypeAfter` | app/repositories/orders.py:284-285 | The first warehouse type given since then, else what that arrival had. |
| `RowColumns.GivenAfter` | app/repositories/orders.py:239-241 | Posting number, assembly id and srid: the last one an overwriting arrival gave. |
| `RowColumns.CountAfter` | app/repositories/orders.py:119-156 | As many items as the first arrival that had any. |
| `RowColumns.AmountsAfter` | app/repositories/orders.py:119-156 | At each position the amounts last given there. |
| `RowColumns.TextAfter` | app/repositories/orders.py:119-156 | At each position the title and articles last given there. |
| `RowColumns.ModeOf` | app/repositories/orders.py:100-105 | Whether an arrival enriches is decided by the sources of the arrivals before it. |
| `RowColumns.CreationAfter` | app/repositories/orders.py:37-88 | Owner, number, receipt time and empty marks are those of the first arrival. |
| `Orders.UpsertIdempotent` | app/repositories/orders.py:90-158 | Upserting the same order a second time, at any later time, finds the same row and changes nothing, in both modes. |
| `Orders.MergedTwice` | app/repositories/orders.py:100-156 | Merging the same order into a row twice is merging it once, enriching or overwriting. |
| `Orders.ExistingAfterUpsert` | app/repositories/orders.py:160-208 | A second lookup for the order finds exactly the row the first call left. |
| `Orders.CreatedThenMerged` | app/repositories/orders.py:37-158 | Overwriting a row with the very order it was created from changes nothing. |
| `Orders.UpsertKeepsIdentity` | app/repositories/orders.py:90-158 | No upsert moves a row or writes its number, owner, receipt time or notification marks. |
| `Orders.ExistingInRange` | app/repositories/orders.py:160-208 | A match has the order's account and marketplace, and its number or its srid. |
| `OrderDedup.OneRowPerIdentity` | app/repositories/orders.py:90-208 | For any arrival order in which every number always carries the same srid: no lookup meets two rows, each srid has at most one row, and the table has one row for each identity that arrived and no other. |
| `OrderDedup.TidyStep` | app/repositories/orders.py:90-158 | One such arrival keeps the table tidy and adds exactly its own identity. |
| `OrderDedup.TidyFindsAtMostOne` | app/repositories/orders.py:160-208 | On a tidy table the lookup never meets two rows. |
| `OrderDedup.MatchHasIdentity` | app/repositories/orders.py:160-208 | On a tidy table the row an arrival is merged into is the row of the same sale, and stays it. |
| `OrderDedup.NoMatchIsNew` | app/repositories/orders.py:160-181 | When the lookup finds nothing, the sale is not in the table. |
| `OrderDedup.TidyRun` | app/repositories/orders.py:90-158 | So does any run of them, from any tidy table. |
| `OrderDedup.SridsStayUniqueExactly` | app/repositories/orders.py:100-117 | One call breaks one-row-per-srid if and only if the overwriting branch hands the matched row a srid that another row of the account has. |
| `OrderDedup.LateSridMakesDuplicates` | app/repositories/orders.py:160-181 | A live order first seen without srid, then with it after its statistics row, leaves two rows with one srid, and the next lookup by it raises. |
| `OrderDedup.StatisticsKeepLiveOrder` | app/repositories/orders.py:258-293 | Over any run of statistics rows a live row keeps number, srid, assembly id, sale model, deadlines and source, and its status becomes cancelled exactly if a cancellation reached it. |
| `OrderDedup.AfterAppend` | app/repositories/orders.py:90-158 | Running two batches one after the other is running their concatenation, errors included. |
| `RowHistories.RowIsOwnHistory` | app/repositories/orders.py:90-158 | Each sale's row, in all columns but its id, is the fold of its own arrivals; arrivals of other sales do not touch it. |
| `RowHistories.ArrivalOrderDoesNotMatter` | app/repositories/orders.py:90-208 | Every permutation of consistent arrivals stores the same identities in as many rows, and the same row for each sale whose own arrivals come in the same order. |
| `RowHistories.DistinctSalesCommute` | app/repositories/orders.py:90-208 | Orders of pairwise different sales leave the same rows in every order of arrival. |
| `RowHistories.ReplayedHistory` | app/repositories/orders.py:90-158 | Going through a row's statistics orders a second time changes nothing, whatever they say and however often they repeat. |
| `RowHistories.ReplayedBatchIsNoOp` | app/repositories/orders.py:90-158 | Upserting a batch of statistics orders, in any order and with repeats, a second time leaves the table exactly as it was. |
| `RowHistories.PositionsAfter` | app/repositories/orders.py:90-158 | Rows stand in order of their sale's first arrival, a new row's id being its position. |
| `RowHistories.SameFoldsSameTable` | app/repositories/orders.py:90-158 | Two runs that fold each sale's arrivals to the same row and meet new sales in the same order leave the same table. |
| `WbIdentity.ConsistentExactly` | app/integrations/wb.py:853-855 | The one-srid-per-number hypothesis holds if and only if assembly orders keep their rid, no number a statistics row goes by is an assembly id with another rid, and no srid is the number of a row without srid; the numbers are written out. |
| `WbIdentity.ConsistentMeansOneSridPerNumber` | app/integrations/wb.py:988-1001 | The hypothesis on normalised orders says the same as one srid per number on the payloads. |
| `WbIdentity.OneRowPerSrid` | app/integrations/wb.py:988-1001 | Live, historical and statistics payloads in any order leave exactly one row for each srid that arrived and none for any other, and no lookup by srid meets two rows. |
| `OrdersPaging.SyncAccount` | app/workers/tasks_main.py:1798-1858 | The loop refines the recursive specification for every API and every outcome of the attempts, within the page cap. |
| `OrdersPaging.SyncTrace` | app/workers/tasks_main.py:1798-1858 | For every API: the k-th request starts at the change date of the last row read, or a second later than the request before if that date cannot be read; the rows fetched are the pages in order; and the loop ends, for the reason it gives, on 1000 pages, a failed call, an empty page, a repeated stamp or a missing one. |
| `OrdersPaging.FirstsAreAttempted` | app/workers/tasks_main.py:1819-1839 | The rows attempted are, in the order fetched, those without a srid and the first one fetched with each srid. |
| `OrdersPaging.ProcessPage` | app/workers/tasks_main.py:1813-1856 | One page: rows processed, then stop on a missing or repeated stamp, else move the cursor. |
| `OrdersPaging.ProcessRows` | app/workers/tasks_main.py:1819-1839 | Row by row: a seen srid is skipped, any other row is attempted, and the counters follow the outcome. |
| `OrdersPaging.EachSridAttemptedOnce` | app/workers/tasks_main.py:1819-1839 | Whatever the API answers and however attempts end, each fetched non-empty srid is attempted exactly once, rows without one are attempted too, and nothing else is. |
| `OrdersPaging.CountersAreExact` | app/workers/tasks_main.py:1727-1731 | Loaded, created and updated count the attempts that got past the upsert; skipped counts repeated srids and attempts that raised, so a failed commit is counted as loaded and as skipped. |
| `OrdersPaging.SyncCompleteExactly` | app/workers/tasks_main.py:1803-1856 | With an API serving the first N rows at or after the cursor, and the page cap not hit, every row from the start date on is fetched if and only if no timestamp fills a whole page with rows still to come. |
| `OrdersPaging.SyncComplete` | app/workers/tasks_main.py:1798-1858 | In particular when fewer than N rows share a timestamp, all rows are seen and every non-empty srid is attempted exactly once. |
| `OrdersPaging.CapOutOfReach` | app/workers/tasks_main.py:1803-1803 | The page cap cannot be hit while fewer rows remain than the cap allows pages. |
| `OrdersPaging.OnCourseStep` | app/workers/tasks_main.py:1841-1852 | A page that moves the cursor keeps "everything up to here is fetched and no timestamp passed fills a page". |
| `OrdersPaging.StopIsExact` | app/workers/tasks_main.py:1841-1849 | When the cursor stands still, rows are missing exactly if its timestamp fills the page. |
| `OrdersPaging.StalledSourceExample` | app/workers/tasks_main.py:1841-1849 | Three rows with one change date, served two at a time: the loop ends without the third. |
| `FbsWindows.SplitWindows` | app/workers/tasks_main.py:2005-2010 | The loop computes the recursive split of the period. |
| `FbsWindows.WindowsTile` | app/workers/tasks_main.py:2005-2010 | The windows tile the period: non-empty, at most 30 days, end to start, first to last, and ceiling-many; an empty period has none. |
| `FbsWindows.GetFbsOrders` | app/integrations/wb.py:138-224 | Following the cursor returns the whole listing, whichever way the last page announces itself. |
| `FbsWindows.TwoWindowsSameRow` | app/workers/tasks_main.py:2014-2040 | The orders of the second in which two windows meet are upserted twice, and that makes nothing else of any row. |
| `FbsWindows.WindowsSameRow` | app/workers/tasks_main.py:2005-2046 | A sale whose entries are in order across the seconds where windows meet gets the same row from the windows as from one fetch. |
| `FbsWindows.WindowedSyncIsOneFetch` | app/workers/tasks_main.py:2005-2046 | For statistics orders of any shape (any items, any posting number), listed in any order and with repeats: if each sale's own entries are in order across the seconds where windows meet, the windows leave the rows of one fetch in all columns but the id, receipt time included; if the whole listing is in order there, the same table. |
| `FbsWindows.CreatedOnceIsInOrder` | app/workers/tasks_main.py:2005-2046 | The hypothesis holds of every listing, in any order, in which one sale has one creation time. |
| `FbsPayloads.AbsorbOne` | app/repositories/orders.py:90-158 | Of a payload entry that comes again later in a row's history, the earlier occurrence leaves nothing in what the row shows. |
| `FbsPayloads.Absorb` | app/repositories/orders.py:90-158 | So of any number of entries that all come again later. |
| `FbsPayloads.NormalizedIsNormal` | app/integrations/wb.py:835-883 | What the normaliser makes of a payload: one item, no posting number, its own id as assembly id, a numeric warehouse or none, a statistics order. |
| `FbsPayloads.LastPayloadShows` | app/integrations/wb.py:835-883 | After a sync of any listing into an empty table a sale's row shows, column by column, the payload listed last for it: status or its fallback, times, warehouse or office, payload, and the item with its prices. |
| `FbsReordering.OneNumberBeginsAlike` | app/workers/tasks_main.py:2005-2018 | A sale that is listed under one number meets the second half of that condition. |
| `FbsPayloads.FoldNumber` | app/repositories/orders.py:237-256 | A row keeps the order number of the arrival it was created from. |
| `FbsReordering.PayloadWindowsAreOneFetch` | app/workers/tasks_main.py:2005-2046 | For the orders the sync makes of its payloads, listed in any order and with repeats, over any tidy table and by any clocks: if no sale lists an entry after one created across a boundary later, and sales new to the table begin with the same number, the windows leave the rows of one fetch, serial ids and receipt times apart, a missing text being null or empty alike. |
| `FbsReordering.WindowsSafeExactly` | app/workers/tasks_main.py:2005-2046 | For one sale's numbers, rids and creation times: whatever else its payloads say and over every tidy table, windows and one fetch leave the same rows if and only if, at every second where windows meet, no entry created before it is listed after one created at or after it, and the windows begin with the number one fetch begins with. |
| `FbsReordering.NotCrossingDisagrees` | app/workers/tasks_main.py:2005-2046 | For any such times out of order, payloads with those numbers, rids and times, differing in their titles, for which the rows differ. |
| `FbsReordering.BackwardsEntryExample` | app/workers/tasks_main.py:2005-2046 | A concrete sixty-day period and two payload times for which windows and one fetch differ. |
| `FbsReordering.SameEntries` | app/workers/tasks_main.py:2005-2018 | The windows fetch an entry if and only if one fetch of the period does. |
| `FbsReordering.WindowsCover` | app/workers/tasks_main.py:2005-2010 | The windows lie inside the period and leave no second of it out. |
| `FbsWindows.StoredIsAfter` | app/workers/tasks_main.py:2033-2046 | Created, updated and skipped orders add up to those fetched, created ones are the rows added, and where no upsert raises nothing is skipped. |
| `FbsWindows.SkippedExactly` | app/workers/tasks_main.py:2033-2046 | The run goes through every order whatever some of them raise: a raising upsert leaves the table as it was, any other is stored, and exactly the raising ones are counted as skipped. |
| `FbsWindows.FetchedExactly` | app/workers/tasks_main.py:2014-2029 | What the reachable windows fetch: the listed orders whose second one of them spans. |
| `FbsWindows.SyncWindows` | app/workers/tasks_main.py:2014-2046 | Exactly the windows that can be fetched are, in period order, and their orders upserted in that order; one that cannot be fetched is passed over and the loop goes on. |
| `FbsWindows.UpsertAll` | app/workers/tasks_main.py:2033-2046 | Every order fetched is upserted, in order, and counted as created, updated or skipped. |
| `FbsWindows.SyncAssemblyOrders` | app/workers/tasks_main.py:2005-2046 | For every listing, table and set of failing windows: an order is fetched if and only if it is listed and some window that can be fetched spans its second; pages loaded are the windows that can be fetched; what is fetched is upserted in order; over a tidy table, with no window failing, the rows are those one fetch leaves. |
| `Delivery.MarksAreEarnedAndFinal` | app/workers/tasks_main.py:464-538 | Over any run of upserts, batches, refusals and failed commits, an order is marked only if Telegram accepted its message, or refused it as forbidden, or as a bad request whose text says, in any case, "bot was blocked" or "chat not found"; and a committed first mark never changes or goes away. |
| `Delivery.OtherRefusalRetries` | app/workers/tasks_main.py:504-520 | Any other refusal - a timeout, a flood limit, another bad request - leaves all orders and marks as they were and counts as failed. |
| `Delivery.IsPermanentExactly` | app/workers/tasks_main.py:218-224 | A failure is taken for permanent if and only if it is one of those refusals. |
| `Delivery.VerdictExactly` | app/workers/tasks_main.py:476-510 | An attempt counts as sent if and only if the message was accepted and its mark committed without any exception; it ends the batch if and only if the handler's own mark raises. |
| `Delivery.MarkedNeverPendingAgain` | app/repositories/orders.py:333-350 | Once marked, an order is on no pending list in any later state. |
| `Delivery.AttemptMarksExactly` | app/workers/tasks_main.py:476-510 | Whatever the session still holds, one attempt marks an order if and only if its own mark is committed or its commit carries an earlier one along; and it leaves a mark in the session exactly in the stated cases. |
| `Delivery.BatchMarksExactly` | app/workers/tasks_main.py:469-538 | After a batch an order is marked if and only if it was before or some attempt's executed mark took effect, at once or with a later attempt's commit. |
| `Delivery.MarkCarriesTime` | app/repositories/orders.py:295-304 | When the session holds no other mark for the order, a committed mark sets its last time to the attempt's, and its first one if it had none. |
| `Delivery.SentIsMarked` | app/workers/tasks_main.py:486-503 | Whatever the session holds, a counted success is a committed mark; an accepted message whose commit is lost is counted as failed and stays unmarked. |
| `Delivery.BatchCountsExactly` | app/workers/tasks_main.py:469-538 | A batch comes to its end, or to the first attempt whose handler raises; of those attempts it counts as sent exactly the ones that went through without exception, and all others as failed. |
| `Delivery.UpsertMovesPendingExactly` | app/repositories/orders.py:237-256 | An upsert moves a row on or off a pending list if and only if it overwrites an unmarked row of the account whose old and new sale models lie on different sides of the list. |
| `Delivery.MovedWarehouseLeavesList` | app/repositories/orders.py:333-350 | A statistics row whose sale model changes leaves the list without any message. |
| `Delivery.OpMovesPendingExactly` | app/repositories/orders.py:333-350 | One batch or upsert leaves an order on the list if and only if it was on it and neither a mark that took effect nor an arrival's sale model took it off, or an arrival's sale model put it on. |
| `Delivery.PendingListExactly` | app/repositories/orders.py:333-350 | Over any run of upserts and batches, failed commits included, an order is on the pending list if and only if it was on it or put on, and not taken off since. |
| `Delivery.Session.Commit` | app/workers/tasks_main.py:506-510 | A commit takes effect, raises after taking effect, or raises without effect, keeping the executed marks or not. |
| `Delivery.Session.DeliverOne` | app/workers/tasks_main.py:476-527 | One notification: send, mark, commit; on any exception roll back, and mark an order whose refusal is final. |
| `Delivery.Session.DeliverNewOrders` | app/workers/tasks_main.py:464-538 | The loop over the batch, with its two counters, ends early only if the handler itself raises. |
| `DuplicateRepair.OrdersAfterRepair` | app/cli/repair_wb_duplicate_orders.py:161-167 | Exactly the pairs' statistics rows are gone; every live row of a pair is still there, and all remaining rows are who they were. |
| `DuplicateRepair.CleanExactlyWhenItEnds` | app/cli/repair_wb_duplicate_orders.py:175-187 | After an applied run the query finds nothing if and only if the run ended normally, with any number of live and statistics rows per srid; the pair it stopped at is still a duplicate. |
| `DuplicateRepair.RefusedExactly` | app/cli/repair_wb_duplicate_orders.py:133-167 | A merge's commit raises if and only if the live order has no item and some profit snapshot belongs to the statistics row. |
| `DuplicateRepair.RefusedPairExample` | app/cli/repair_wb_duplicate_orders.py:175-187 | A live order without items and a statistics row with a snapshot: the run stops at once. |
| `DuplicateRepair.EndsNormallyExactly` | app/cli/repair_wb_duplicate_orders.py:175-187 | Read off the first tables: a run ends normally if and only if no pair is the first with its statistics row, has a snapshot there, and a live order that neither had an item nor was given one by an earlier pair; otherwise it stops at the first such pair. |
| `DuplicateRepair.EventsSurvive` | app/cli/repair_wb_duplicate_orders.py:150-159 | Every sales event survives and names an existing order of the sale it named before, the same order unless that was deleted. |
| `DuplicateRepair.SnapshotsSurvive` | app/cli/repair_wb_duplicate_orders.py:133-148 | However far a run gets, all snapshots are there, each on an item of an existing order of its sale; nothing is assumed of the live orders. |
| `DuplicateRepair.EventLinksExactly` | app/cli/repair_wb_duplicate_orders.py:150-166 | An event's order link moves to the live row exactly if it named the statistics row; its item link is lost exactly if it named one of that row's items. |
| `DuplicateRepair.SnapshotMovesExactly` | app/cli/repair_wb_duplicate_orders.py:133-148 | The snapshots of the statistics row's items, and no others, move to the live order's first item, if it has one. |
| `DuplicateRepair.MergeExactly` | app/cli/repair_wb_duplicate_orders.py:86-167 | One merge, column by column: the live row keeps its body and has the statistics payload filed unless that is empty; its items stay, or become copies under new ids; the statistics row is gone and no other order touched. |
| `DuplicateRepair.LivePayload` | app/cli/repair_wb_duplicate_orders.py:86-93 | After any part of a run a live row has its own body, and filed with it the payload, as it stood at first, of the last pair done for it that was first with its statistics row and whose payload was not empty; or what was filed at first, if none. |
| `DuplicateRepair.LiveContents` | app/cli/repair_wb_duplicate_orders.py:104-131 | After any part of a run a live row that had no items has copies, under new ids, of the items of the first statistics row done for it that had any, in their order; or none, if none had. |
| `DuplicateRepair.ItemsUntouched` | app/cli/repair_wb_duplicate_orders.py:104-131 | A row that has items keeps exactly those through any part of a run. |
| `DuplicateRepair.LiveItems` | app/cli/repair_wb_duplicate_orders.py:104-131 | A live row is without items as long as it had none and no pair gave it a statistics row's items. |
| `DuplicateRepair.Session.FindDuplicates` | app/cli/repair_wb_duplicate_orders.py:23-62 | Each pair of a live and a statistics row of one Wildberries account with one non-empty srid is found exactly once, and nothing else. |
| `DuplicateRepair.Session.MergeAndDelete` | app/cli/repair_wb_duplicate_orders.py:65-172 | The steps reported are those taken: payload filed, items copied, snapshots relinked, events relinked, row deleted, each under its own condition; a pair whose row is gone is skipped; a commit that raises changes nothing; a dry run commits nothing. |
| `DuplicateRepair.Session.RunRepair` | app/cli/repair_wb_duplicate_orders.py:175-187 | A dry run leaves the committed tables unchanged; an applied run repairs the pairs found one by one and raises at the first whose commit does. |
| `MigrationChain.LinearExactly` | scripts/check_alembic_chain.py:55-102 | An accepted set is one linear chain if and only if it has a single head and no cycle. |
| `MigrationChain.SingleHeadMeansChain` | scripts/check_alembic_chain.py:85-102 | With a single head and no cycle, walking down from the head visits every revision once and ends in a root. |
| `MigrationChain.ChainHasOneRootNoForks` | scripts/check_alembic_chain.py:85-102 | A chain has one root, and no revision with two children. |
| `MigrationChain.NoHeadMeansCycle` | scripts/check_alembic_chain.py:85-86 | A non-empty set without a head contains a cycle. |
| `MigrationChain.CyclePassesTheCheck` | scripts/check_alembic_chain.py:76-102 | Two revisions that name each other pass the check with exit code 0 and no head. |
| `MigrationChain.ChainHasSingleHead` | scripts/check_alembic_chain.py:85-86 | A chain's only head is its last revision. |
| `MigrationChain.ChainHasNoCycle` | scripts/check_alembic_chain.py:76-86 | A chain has no cycle. |
| `MigrationChain.Checker.Collect` | scripts/check_alembic_chain.py:59-74 | The first file of each revision is kept; there is no error exactly when every file names a revision of its own. |
| `MigrationChain.FirstFileKept` | scripts/check_alembic_chain.py:59-74 | A revision keeps the parent of the first file that names it. |
| `MigrationChain.PassesExactly` | scripts/check_alembic_chain.py:59-83 | The two passes accept exactly the files that meet that condition. |
| `MigrationChain.Checker.CheckParents` | scripts/check_alembic_chain.py:76-83 | No error is added exactly when every parent named is a revision. |
| `MigrationChain.Checker.Run` | scripts/check_alembic_chain.py:45-102 | Exit code 0 exactly for a non-empty set of files that each name a revision of their own and a parent that is the revision of some file or none; the parents reported are then the files' own, with their heads, and a warning exactly for several heads. |
| `UserRace.OneRowAndNoRaise` | app/repositories/users.py:23-46 | In every interleaving a telegram id has at most one row, and no call raises. |
| `UserRace.FinishedCallsShareTheRow` | app/repositories/users.py:23-46 | All finished calls for one telegram id return the same row, with the names they asked for, and it stays in the table. |
| `UserRace.CommittedStep` | app/repositories/users.py:34-38 | A row enters the table only by the commit of the call that inserted it. |
| `UserRace.RowsStay` | app/repositories/users.py:23-46 | Rows once committed stay. |
| `UserRace.InvStep` | app/repositories/users.py:23-46 | Every query, flush, commit and rollback keeps the invariant that makes the second lookup succeed. |
| `UserRace.InvAlways` | app/repositories/users.py:23-46 | So every reachable state has it. |
| `UserRace.GetOrCreate` | app/repositories/users.py:23-46 | With others committing between its queries, the call returns the key's user with the caller's names, inserting exactly when nobody else's row is there. |
| `Products.ColumnIsLastWritten` | app/repositories/products.py:29-62 | After any history each of the fourteen plain columns holds the last call's value; a tariff or dimension column the last value given. |
| `Products.UnwrittenColumnIsNull` | app/repositories/products.py:39-60 | A column no call gave a value is null. |
| `Products.RowIffNamed` | app/repositories/products.py:29-62 | A key has a row exactly when some call named it. |
| `Products.ProductRepository.Upsert` | app/repositories/products.py:29-62 | Fields are set one by one, a null tariff or dimension being left out; every order of the fields gives the same row. |
| `Products.StandingLinkIsKept` | app/repositories/products.py:205-238 | After any history a product's link is that of its last manual call, or of its last call if none was manual. |
| `Products.ManualKept` | app/repositories/products.py:229-236 | A product has a link exactly when it was linked, and the link is manual exactly when some call was. |
| `Products.OneCallStands` | app/repositories/products.py:205-238 | Exactly one call of a linked product is the one that stands. |
| `Products.MasterProductRepository.LinkProduct` | app/repositories/products.py:205-238 | An automatic match never replaces a manual one; any other call replaces the link. |
| `SalesEvents.RowIsFold` | app/repositories/events.py:80-138 | Each event row is a fold of its key's calls: links, articles and profit estimate hold the last one given, the rest the last call's. |
| `SalesEvents.RowIffNamed` | app/repositories/events.py:24-138 | A key has a row exactly when a call named it. |
| `SalesEvents.IdsAlways` | app/repositories/events.py:24-138 | No two rows share an id. |
| `SalesEvents.MarkedStaysMarked` | app/repositories/events.py:149-154 | A mark once set stays set over any further calls, and is the same one if no other mark is made. |
| `SalesEvents.MarkIsLast` | app/repositories/events.py:149-154 | A row's mark is that of the last `mark_notified` with its id since it was inserted, and none if there was none. |
| `SalesEvents.OwnerIsFirst` | app/repositories/events.py:24-138 | A row belongs to the user of the first call that named its key. |
| `SalesEvents.SalesEventRepository.UpsertNormalized` | app/repositories/events.py:80-138 | Inserts a row for a new key, and otherwise improves the one there. |
| `SalesEvents.SalesEventRepository.AddOnce` | app/repositories/events.py:24-78 | Inserts only for a new key; an existing row is left alone. |
| `RetryLoop.AsyncApiClient.Request` | app/integrations/base.py:47-143 | At most max_attempts requests, stopping at the first reply that is neither 429, nor 500 or above, nor a broken connection; before each retry it sleeps the positive Retry-After of a 429, else 2^k seconds; the last reply decides by status, 429, 401, other 4xx and 5xx, or a body; the message after the loop is reached only when no attempt is allowed. |
| `RetryLoop.BackoffTotal` | app/integrations/base.py:64-97 | Without Retry-After, k retries sleep 2^k - 1 seconds in all. |
| `RetryLoop.OneDecides` | app/integrations/base.py:51-130 | Some attempt decides the call, and only one. |
| `RetryLoop.MoreAttemptsChangeNothingElse` | app/integrations/base.py:51-130 | A larger limit changes the result only if the deciding reply was worth a retry. |
| `RetryLoop.BodyExactly` | app/integrations/base.py:84-108 | A body is returned exactly when an attempt in range gets a status outside 4xx and 5xx after retryable failures only, a status from 600 on counting as one except on the last attempt. |
| `OzonSplit.SplitIsExact` | app/integrations/ozon.py:532-538 | Logistics, other services and the part no keyword claims add up to all service amounts; no service is in two of them, so the two totals never exceed the whole. |
| `OzonSplit.AddingAService` | app/integrations/ozon.py:577-596 | One more service adds its price, or its amount if that is missing or zero, without the sign, to a total if and only if its name, or its type if it has none, contains a keyword at some position and no excluded word; an entry that is no object adds nothing. |
| `OzonSplit.ExtractServiceAmount` | app/integrations/ozon.py:577-596 | The total is the sum of absolute amounts of the services that mention a keyword and nothing excluded. |
| `OzonSplit.Settle` | app/integrations/ozon.py:529-567 | With payout zero, seller payout, commission and both totals add up to the price; a positive payout is the seller's; a negative one leaves the seller the price. |
| `OzonSplit.IndexFinances` | app/integrations/ozon.py:510-521 | The dictionary holds under each key the last finance record that carries it in any of three id fields. |
| `OzonSplit.LastNamedIsLast` | app/integrations/ozon.py:518-521 | That record is the last one in the list that names the key. |
| `OzonSplit.FinanceOfExactly` | app/integrations/ozon.py:510-528 | A line is settled by the last record that carries its sku, else its offer id, else its product id, in any of three fields; by an empty record if none does. |
| `OzonSplit.NormalizeProducts` | app/integrations/ozon.py:508-569 | One item per product line, in order, settled by the finance record its key names last, or by none. |
| `Cache.ServedExactly` | app/core/cache.py:41-75 | Over every history a value is served exactly when the key's last operation wrote it and less than its time-out, if it has one, has passed since; objects come back as text. |
| `Cache.NothingStale` | app/core/cache.py:53-65 | With one time-out T for all writes to a key, every value served was written at most T ago, and was not None. |
| `Cache.EntryIsLastWrite` | app/core/cache.py:53-75 | A key is present exactly when its last operation was a write, with that write's value and deadline. |
| `Cache.OriginIsLastWrite` | app/core/cache.py:53-75 | The write a key's entry goes back to is the last operation on the key. |
| `Cache.CacheManager.Get` | app/core/cache.py:41-51 | Any failure reads as a miss; otherwise the live value. |
| `Cache.CacheManager.Set` | app/core/cache.py:53-65 | True exactly when stored and answered; a negative time-out is refused; none and zero mean no time-out. |
| `Cache.CacheManager.Delete` | app/core/cache.py:67-75 | The key is gone unless the command failed without effect; True exactly when Redis answered. |
| `Cache.CacheManager.GetOrSet` | app/core/cache.py:103-116 | A live value is served and nothing written; on a miss or any store failure the result is the factory's, so None never comes from the cache. |

## Left out

- Services behind re-export modules (payments, promo codes, pricing, relinking) and the profit
  recalculation called while orders are processed: their code is not part of this model.
- HTTP, Telegram, Redis and Postgres themselves, logging, ORM change tracking and lazy loading: only the
  atomic effect of a statement, or a script of replies.
- Contents of JSON payloads: orders carry an opaque body and the slot `_enrichment`.
- DuplicateRepair.Session.MergeAndDelete: whether SQLAlchemy notices an in-place change of a payload is not modelled.
- Parsing of dates, migration files and marketplace payloads: models start from parsed values, including
  the Retry-After header. The WB money helpers (`_kopecks_to_rubles`, `_extract_commission`,
  `_extract_logistics`, `_extract_other_expenses`) are single expressions over payload keys.
- The lock's path for clients without `eval`, which exists for test doubles; UUID tokens are only assumed
  fresh. Between acquisitions that are interrupted or
  retry, the cooldown holds from one's stamp to the other's check (`CheckWaitsOutTheStamp`), no further.
- Unicode: `isdigit` and lower-casing are the ASCII ones, and Ozon service names are given in lower case.
- Times set by the server clock, and Postgres error cases other than unique violations.
- Tie-breaking and ORDER BY of the repair query: its result holds for every order of the pairs.
- The order routes `get_by_external`, `exists`, digests, summaries and deadline risks: queries without state.
- ReturnsEventRepository: the same upsert as sales events with fewer columns; `MasterProductRepository.get_or_create`:
  first non-empty value per column.
- `_tracked_task`, sync-run bookkeeping, login tokens, sessions and schedules: simple monotone facts.
- OrdersPaging.SyncCompleteExactly: speaks of runs the page cap does not cut short; `OrdersPaging.CapOutOfReach`
  says when it cannot. Offsets between the API's and the program's time zones are not modelled.
- FbsWindows.GetFbsOrders: the API's opaque cursor is modelled as a position in a listing that does not
  change during the fetch, and a failed request fails the window as a whole.
- FbsWindows.SyncAssemblyOrders: an account deleted during the run, a payload that cannot be normalised and a
  failed commit of one order are not modelled; the first two store nothing, as an upsert that raises does.
- FbsReordering.WindowsSafeExactly: rows are compared without serial ids and receipt times, which are the database's
  and the clock's, and with a missing text null or empty alike; payloads without a creation time, which the
  normaliser dates by the clock, are not modelled.
- DuplicateRepair.Session.RunRepair: two repair runs at once, and sales events arriving meanwhile, are not modelled.
- Delivery.Session.DeliverNewOrders: two workers delivering the same order at once are not modelled.
- UserRace.GetOrCreate: the rollback after a unique violation also drops the caller's other pending
  work, which is outside the user table.
- RetryLoop.AsyncApiClient.Request: the wording of errors and the JSON fallback for unreadable bodies.
- OzonSplit.NormalizeProducts: titles, articles and quantities are copied columns; ids are given as the
  strings the source makes of them, with 0 as a missing id.
- Cache.CacheManager.GetOrSet: a factory that raises stores nothing and passes its exception on; several
  callers racing on one key are not modelled.
