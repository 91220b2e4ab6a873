# Verification of the omnicatena wallet core

This project models the parts of omnicatena where a mistake would lose a transaction record, money or a key, and
proves what they guarantee:

- **Monitoring.** An EVM watcher scans blocks in order, matches transactions against watched addresses and hands
  each event over an unbuffered channel to a monitor, which saves it and then publishes it; the watcher then moves a
  persisted cursor. `Pipeline` is this protocol as a transition system over any number of crashes, restarts, RPC
  failures, lost replies and failed writes. `PipelineSafety` says what every run keeps, exactly what can be lost, and
  how the two tables relate to the chain; `LostEvents` that what is lost stays lost. `Watchers`, `MonitorServices` and
  `PostgresTransactions` are the two loops and the two statements in their imperative form; `LoopRefinement` shows that
  both loops only take steps of the transition system.
- **Bitcoin transfers.** `CoinSelection` has the in-place maturity filter, the sort and the greedy choice, with the
  exchange argument for its optimality. `BitcoinTransfers` builds the balanced transaction and signs it in place.
- **Keys.** `DerivationPaths` is the path parser with its printer and its language, `KeyDerivation` the ed25519
  derivation and the BIP-32 fold.
- **Wallets.** `WalletStore` has the upserting tables and the in-memory map behind one port, `WalletServices` the
  creation of a wallet whatever step fails, `Monitoring` the address-to-wallet map built from them.
- **Fees.** `EvmFees` has the EIP-1559 cap and how many blocks it lasts.

What the outside world does (RPC replies, database outcomes, cancellation, clock readings) is an argument of a method
or a choice of a step, so every theorem holds for all of them. Cryptography, hex and base58 texts and library parsers
are function values in a record; where a theorem needs a fact about them, such as a 64-byte HMAC or a text that parses
back to its address, it names that fact in its `requires`.

## Where the code and its documentation differ

- `db/schema.sql:88` calls the statuses confirmed and failed terminal. The upsert at
  `internal/adapter/repository/transaction_postgres.go:33-38` overwrites any status.
  `ConfirmedStaysExactlyWhenLastIsConfirmed` says when a row stays confirmed; `ConfirmedCanBeUndone` is an instance
  where it does not. The watcher itself only emits confirmed events.
- `db/schema.sql:52-54` lets the cursor stand for scanned blocks. It is written after the last event of a block is
  handed over, not after it is saved (`internal/adapter/chain/evm/watcher.go:102-114`), so each run can leave one event
  behind. `AllButOnePerRun` bounds the loss, `StrandsExactlyWhenHolding` says when it happens,
  `CursorStaysTrueExactlyUnlessLastIsUnsaved` names the guard that the cursor write lacks, and
  `LastEventCanBeLostForGood` builds, for every block with events, a run after which no later run that reads the cursor
  ever records the block's last event.
- `internal/adapter/chain/bitcoin/adapter.go:363` promises the smallest covering set. With a need of zero or less the
  smallest set is the empty one, but one coin is taken: `ChosenIsSmallestExactlyForPositiveNeed`.
- `internal/hdwallet/hdwallet.go:90-93` adds the hardened offset in 32 bits, so a quoted number of 2^31 or more names an
  unhardened index: `QuoteHardensExactlyBelowHalf`.
- `internal/app/wallet_service.go:23` promises one account per supported chain. The path has two unhardened levels, so
  an adapter on ed25519 derives nothing and its chain is skipped: `Ed25519ChainsAreSkipped`.
- The fee cap of twice the base fee plus tip covers as many blocks as full ones do not double the base fee
  (`CoveredExactlyWhileNotDoubled`): five exactly from a base fee of 5 wei on (`FiveBlocksAreCoveredExactlyFromFive`),
  six for no base fee of 207 wei or more (`SixBlocksAreNeverCoveredFrom207`). Here a block may use one unit more than
  twice its target, as one with an odd gas limit can.

## Model

| member | source | states |
|---|---|---|
| Pipeline.Reachable | internal/adapter/chain/evm/watcher.go:51-117 | Every state that any sequence of steps can reach, crashes and failures included, satisfies the scan, lag, log, block and cursor invariants. |
| Pipeline.ScanInvKept | internal/adapter/chain/evm/watcher.go:83-116 | Each step keeps the handed-over events equal to the declared event sequence of the blocks scanned so far, up to the position within the current block. |
| Pipeline.LagInvKept | internal/app/monitor_service.go:38-53 | Each step keeps the saved events at most one behind the handed-over ones and the published at most one behind the saved; a stopped run that is behind has recorded which event it lost. |
| Pipeline.LogInvKept | internal/app/monitor_service.go:46-48 | Each step keeps the tables equal to what the committed saves produce, and each of the run's saved events among those saves. |
| Pipeline.FinishedIsAlmostSaved | internal/adapter/chain/evm/watcher.go:102-109 | When the last event of a block has been accepted by the unbuffered channel, all of the block's events are saved except possibly that last one, which is then still in the monitor's hands or lost. |
| Pipeline.UnsavedKept | internal/app/monitor_service.go:42-51 | No step forgets an event that was handed over: it stays recorded as unsaved or reaches the log. |
| Pipeline.BlocksInvKept | internal/adapter/chain/evm/watcher.go:96-115 | Each step keeps every finished block almost saved under the watch list that finished it, and every block between the run's start and the next one finished. |
| Pipeline.CursorInvKept | internal/adapter/chain/evm/watcher.go:110-114 | Each step keeps every block above the base up to the cursor finished, so the cursor never covers a gap. |
| PipelineSafety.AllButOnePerRun | internal/adapter/chain/evm/watcher.go:51-117 | Over any run history, every event of every block in (base, cursor] has its confirmed row and its link, except that each run may miss one, which is the last event of its block. |
| PipelineSafety.StrandsExactlyWhenHolding | internal/app/monitor_service.go:42-48 | A run comes to an end with an event handed over and not saved by exactly two steps: a crash, or a save without effect, while the monitor holds the event. |
| PipelineSafety.CursorStaysTrueExactlyUnlessLastIsUnsaved | internal/adapter/chain/evm/watcher.go:102-114 | In every reachable state where everything the cursor vouches for is saved, one more step keeps it so if and only if it is not a cursor write, or a repeated finish of a covered block with events, made while the last event handed over is unsaved. |
| PipelineSafety.WhollySavedExactlyWhenNoneMissing | internal/adapter/chain/evm/watcher.go:96-115 | A finished block is saved completely if and only if none of the at most one event per run left outstanding is an event of it that is still missing. |
| PipelineSafety.GapStaysWithoutSaveOrScan | internal/adapter/chain/evm/watcher.go:57-64 | Crashes, restarts, ticks, fetches and failed saves and writes neither open nor close the gap between cursor and tables. |
| LostEvents.LastEventCanBeLostForGood | internal/adapter/chain/evm/watcher.go:102-114 | For every block with events there is a run that persists the block as scanned without saving its last event, and in no continuation whose runs read the cursor and see a head at or above the block does that event ever reach the tables. |
| LostEvents.NothingBelowIsSavedAgain | internal/adapter/chain/evm/watcher.go:57-64 | Once everything has stopped, runs that read the cursor and see a head at or above a block at or below it never save an event of that block or an earlier one. |
| LostEvents.LinksTellEventsApart | internal/adapter/repository/transaction_postgres.go:46-51 | Two events of a block never share a link row. |
| PipelineSafety.LoggedIsInTables | internal/adapter/repository/transaction_postgres.go:32-57 | A delivery once committed has, in every later reachable state, a confirmed row and its link, whatever was saved since. |
| PipelineSafety.RunOrder | internal/app/monitor_service.go:38-53 | Within a run published is a prefix of saved, saved of handed over, and that of the events of blocks from+1, from+2, … in chain order; the ends differ by at most one event; each saved event is in the tables. |
| PipelineSafety.StreamIsInOrder | internal/adapter/chain/evm/watcher.go:96-108 | The declared event sequence runs through its blocks in order of height, and each of its events carries the time of its own block. |
| PipelineSafety.PublishedEventsAreDated | internal/adapter/chain/evm/watcher.go:125-167 | In every reachable state each published event carries the time of the block whose height it carries. |
| PipelineSafety.EventsAreOfTheirBlock | internal/adapter/chain/evm/watcher.go:102 | Every event of a block is about one of its transactions and has the block's height and time. |
| PipelineSafety.ScanDiscipline | internal/adapter/chain/evm/watcher.go:83-116 | The next block changes only by finishing one, by exactly one, with all its events handed over; a written cursor is the block before the next; a failed fetch moves nothing; a run that read the cursor starts at or below it, and only a run that did not can raise the base. |
| PipelineSafety.LogIsProduced | internal/adapter/chain/evm/watcher.go:96-108 | Every delivery ever saved is an event of some block matched under the configuration of some run: nothing is invented. |
| PipelineSafety.ProducedDeliveries | internal/adapter/chain/evm/watcher.go:157-169 | Every saved delivery is confirmed, has a link role and names a wallet that owns its address. |
| PipelineSafety.CanonicalEventsReport | internal/adapter/repository/transaction_postgres.go:60-79 | With checksummed watched texts, the outbound and the inbound event of a transaction both describe its one true row: sender, recipient, value and height. |
| PipelineSafety.BothSidesAgreeExactlyWhenCanonical | internal/adapter/repository/transaction_postgres.go:60-72 | For a transfer between two watched addresses the two events give the same from and to columns if and only if both watched texts are checksummed. |
| PipelineSafety.ReportsAreCompatible | internal/adapter/repository/transaction_postgres.go:33-57 | Two deliveries from one history never contradict each other, across runs, re-scans and sides. |
| PipelineSafety.RowsTellOnlyTheTruth | internal/adapter/repository/transaction_postgres.go:33-41 | In every reachable state each row is the exact row of a transaction that touches a watched address. |
| PipelineSafety.LinksTellOnlyTheTruth | internal/adapter/repository/transaction_postgres.go:46-55 | In every reachable state each link names the role, address and owning wallet of a watched side of a transaction of the chain. |
| PipelineSafety.OneReportPerLink | internal/adapter/repository/transaction_postgres.go:46-51 | Two deliveries with the same link row are one and the same delivery, whichever runs made them. |
| PipelineSafety.TablesHoldTheWholeTruth | internal/adapter/chain/evm/watcher.go:96-115 | For each block the cursor covers, every side watched by the run that finished it has its exact row and link, if and only if nothing left outstanding of that block is still missing; losses elsewhere, and losses made good by a later scan, do not matter. |
| PipelineSafety.TablesAreTheComprehension | internal/adapter/repository/transaction_postgres.go:23-58 | With one watch list, the tables restricted to a covered block are the set comprehension over its transactions (a row exactly for those touching a watched address, a link exactly for each watched side) if and only if nothing left outstanding of that block is still missing. |
| LoopRefinement.SimulatedTick | internal/adapter/chain/evm/watcher.go:91-115 | Tick by tick, whatever fails, cancelled or not, with or without a cursor store, and whatever the monitor has in hand, the watcher stays in a state that the transition system reaches from where it was. |
| LoopRefinement.SimulatedStart | internal/adapter/chain/evm/watcher.go:51-74 | Starting a watcher is the boot step of the transition system, with the same resume point. |
| LoopRefinement.ReachedIsClosed | internal/adapter/chain/evm/watcher.go:51-117 | The reachable states are closed under steps and all satisfy the invariants, so what the loops reach does too. |
| LoopRefinement.TickIsAPath | internal/adapter/chain/evm/watcher.go:91-115 | From any state of the monitor, the tick's effect on next block, events sent and cursor can be reached with the tick's last event still in the monitor's hands, every outcome left open. |
| LoopRefinement.CancelledTickIsAPath | internal/adapter/chain/evm/watcher.go:102-107 | A cancelled tick, which stops within a block, can be reached likewise. |
| LoopRefinement.HandleIsAPath | internal/app/monitor_service.go:46-51 | Every effect that handling an event can have, lost replies and refused links included, is a save step and perhaps a publish step of the transition system. |
| LoopRefinement.TheirOrderDoesNotMatter | internal/adapter/chain/evm/watcher.go:71-72 | Between two hand-overs the monitor's and the watcher's steps commute, in any number, so a save that fails early, or late after further cursor writes, leaves the same state. |
| LoopRefinement.ScanMany | internal/adapter/chain/evm/watcher.go:96-115 | Any number of blocks can be scanned in one go, leaving the declared events handed over, the last of them still in hand, and the cursor at the last successful write. |
| Watchers.Watcher.Watch | internal/adapter/chain/evm/watcher.go:51-74 | A run starts right after the saved cursor when it can be read and lies below the head; without a store or a row, with a failed read, or with a cursor at or above the head, right after the head. It watches exactly the parsed addresses; a failed head request changes nothing. |
| Watchers.Watcher.Emit | internal/adapter/chain/evm/watcher.go:102-108 | A block's events are sent in order and completely, or a strict prefix of them, exactly when the context is found cancelled before one of the sends. |
| Watchers.Watcher.ScanBlock | internal/adapter/chain/evm/watcher.go:97-114 | A block is passed only when fetched and sent in full; otherwise it stays the next one and the cursor stays; no other chain's cursor moves. |
| Watchers.Watcher.Tick | internal/adapter/chain/evm/watcher.go:91-116 | A tick passes every block up to the head or the first failing fetch, sends exactly the declared events of the passed blocks, stops inside a block when cancelled, and leaves the cursor at the last successful write. |
| Watchers.TickWithoutErrors | internal/adapter/chain/evm/watcher.go:96-115 | An error-free tick ends with next equal to the larger of next and head+1, with the cursor at the head. |
| Watchers.CursorNeverPassesTheScan | internal/adapter/chain/evm/watcher.go:109-114 | However writes fail, the cursor is a block that was passed and written, and no passed block whose write succeeded lies above it. |
| Watchers.PostgresCursor.Set | internal/adapter/repository/cursor_postgres.go:36-45 | What took effect is what a later read returns, for every unsigned 64-bit height, even if its reply was lost and an error reported; other chains keep theirs; a failed write changes nothing. |
| Watchers.PostgresCursor.Get | internal/adapter/repository/cursor_postgres.go:24-34 | A missing row is not an error but the absence of a height; a failed read is an error. |
| Watchers.HeightSurvivesBigint | internal/adapter/repository/cursor_postgres.go:33-40 | The trip of a height through a signed column and back is the identity, and the stored number is the height itself exactly below 2^63. |
| MonitorServices.MonitorService.Handle | internal/app/monitor_service.go:46-51 | Handling succeeds exactly when save and publish both report success and the foreign key holds; an event is published only after its save was reported good, and lost replies have their effect. |
| MonitorServices.MonitorService.Watch | internal/app/monitor_service.go:38-53 | The events before the first failure are saved and published in order, the failing one has exactly the partial effect that its outcomes and its foreign key dictate, and nothing after it is touched. |
| MonitorServices.LoggedIsAppended | internal/app/monitor_service.go:46-48 | The log after a watch is the earlier log followed by the delivery of each event at its own place. |
| MonitorServices.FollowedIsAppended | internal/app/monitor_service.go:49-51 | What is published is what was published before followed by the events handled, in order. |
| Matching.MatchTransactions | internal/adapter/chain/evm/watcher.go:123-148 | The loop over a block's transactions returns the specified event list; every event in it tells, field by field, of one of the transactions and one of its sides. |
| Matching.EventsTell | internal/adapter/chain/evm/watcher.go:125-169 | The k-th event is that of the k-th watched side: kind, chain, watched text, the other party's checksummed text or nothing, hash, value, ETH, confirmed, the block's height and the block's time. |
| Matching.MatchedListsWatchedSides | internal/adapter/chain/evm/watcher.go:119-148 | There is exactly one event per watched side, in transaction order with outbound before inbound. |
| Matching.MatchedExactly | internal/adapter/chain/evm/watcher.go:127-146 | An event is in the result if and only if some transaction has that watched side. |
| Matching.WatchedMap | internal/adapter/chain/evm/watcher.go:66-69 | The watched map's keys are exactly the parsed addresses, and of several texts for one address the last is kept. |
| TransactionTables.SaveAllDescribed | internal/adapter/repository/transaction_postgres.go:33-55 | The tables after any sequence of saves are characterised without folding: addresses, amount and asset from a transaction's first event, status, height and stamp from its last, link wallet from the first link. |
| TransactionTables.EventInColumns | internal/adapter/repository/transaction_postgres.go:60-102 | Case by case: which address goes to which column, when a column is null, which role is linked, and that an event that is no side of a transfer leaves both addresses null and no link. |
| TransactionTables.DescriptionIsUnique | internal/adapter/repository/transaction_postgres.go:33-55 | That characterisation leaves no freedom: two tables that fit it are equal. |
| TransactionTables.SaveAllLists | internal/adapter/repository/transaction_postgres.go:33-55 | For deliveries that do not contradict each other the tables just list what each of them says. |
| TransactionTables.OrderAndRepetitionDoNotMatter | internal/adapter/repository/transaction_postgres.go:33-55 | For such deliveries the tables depend only on the set of them, so re-scans and duplicates change nothing. |
| TransactionTables.OrderMattersExactlyUnlessTheyCommute | internal/adapter/repository/transaction_postgres.go:36-50 | On any tables, two saves commute if and only if they overwrite a shared row alike, insert it alike unless it is there, and name one wallet for a shared link unless it is there. |
| TransactionTables.CompatibleExactlyWhenAlwaysCommuting | internal/adapter/repository/transaction_postgres.go:36-50 | Two deliveries do not contradict each other if and only if their saves commute on all tables. |
| TransactionTables.SaveIsIdempotent | internal/adapter/repository/transaction_postgres.go:33-55 | Repeating a save at once changes nothing, on any tables. |
| TransactionTables.ConfirmedStaysExactlyWhenLastIsConfirmed | internal/adapter/repository/transaction_postgres.go:36-37 | A row ends confirmed if and only if the last event of its transaction is confirmed. |
| TransactionTables.ConfirmedCanBeUndone | db/schema.sql:88 | A confirmed status is not terminal: a later pending event takes status and stamp away. |
| TransactionTables.ChainsDoNotInterfere | internal/adapter/repository/transaction_postgres.go:32-57 | Each chain's part of the tables is what that chain's saves alone produce. |
| TransactionTables.MonitorsAreIndependent | cmd/api/monitoring.go:23-35 | Under any interleaving of two monitors of different chains, each leaves the tables it would have left alone. |
| PostgresTransactions.PostgresTransaction.SaveEvent | internal/adapter/repository/transaction_postgres.go:23-58 | The two statements take effect together or not at all; up to ids and stamps the effect is one abstract save; a confirmed row is stamped with the instant of the save, any other is not, ids and first observation stay, no other row is touched; nil is returned only if the save was taken, and a link to an unknown wallet is refused. |
| PostgresTransactions.PostgresTransaction.Statements | internal/adapter/repository/transaction_postgres.go:32-55 | Upsert and link insert, run through row ids, keep ids unique and both foreign keys satisfied and amount to one abstract save, or one of them failed. |
| PostgresTransactions.StoringIsSave | internal/adapter/repository/transaction_postgres.go:33-51 | Storing a row and its link by row id shows, by key, exactly what the id-free save says. |
| PostgresTransactions.StoredGood | db/schema.sql:70-104 | One save keeps row ids unique and both foreign keys of the link table. |
| Monitoring.OwnersOn | cmd/api/monitoring.go:24-29 | The map names exactly the addresses of the chain's accounts, each with the wallet that owns it. |
| Monitoring.EventsGoToTheirOwner | internal/app/monitor_service.go:46 | Every event is saved for the one wallet owning its address: never for the empty id, and never against the wallet foreign key. |
| Monitoring.ListedAccount | internal/domain/wallet.go:25-32 | A listed wallet has an account on a chain exactly when the accounts table has its row, with that row's address. |
| CoinSelection.KeepSpendable | internal/adapter/chain/bitcoin/adapter.go:353-360 | Compacting the array that is being read leaves the spendable coins in order in front and every later place untouched. |
| CoinSelection.MatureKeepsOrder | internal/adapter/chain/bitcoin/adapter.go:353-360 | The filter's result is a subsequence of the coins at strictly increasing positions. |
| CoinSelection.PositionsAreTheSpendable | internal/adapter/chain/bitcoin/adapter.go:342-357 | Those positions are exactly the ones of coins that are not coinbase or would have 100 confirmations in the next block. |
| CoinSelection.CoinbaseIsKeptExactlyFrom99 | internal/adapter/chain/bitcoin/adapter.go:342-357 | A coin is held back exactly when it is coinbase and the head is less than 99 above its own height. |
| CoinSelection.SelectUtxos | internal/adapter/chain/bitcoin/adapter.go:364-374 | For all 64-bit values the selection is the shortest prefix of a descending order whose wrapped total reaches the need, and is refused only when no prefix does. When the coins' total is a 64-bit number and none is negative, no sum wraps, selection succeeds if and only if some selection covers the need, and for a positive need it is of minimal size, of maximal value for its size and irredundant. |
| CoinSelection.TakeFromFront | internal/adapter/chain/bitcoin/adapter.go:366-373 | The loop returns the shortest non-empty prefix whose 64-bit total reaches the need, or nothing when no prefix does. |
| CoinSelection.LargestAreWorthMost | internal/adapter/chain/bitcoin/adapter.go:365-366 | Exchange argument: any k of the coins are together worth at most the k largest. |
| CoinSelection.ChosenIsSmallest | internal/adapter/chain/bitcoin/adapter.go:363-372 | For a positive need no sub-multiset that covers it is smaller than the greedy choice, nor as small and worth more. |
| CoinSelection.ChosenIsIrredundant | internal/adapter/chain/bitcoin/adapter.go:363-372 | Removing any one chosen coin drops the total below the need. |
| CoinSelection.ChosenIsSmallestExactlyForPositiveNeed | internal/adapter/chain/bitcoin/adapter.go:363-372 | The documented minimality holds if and only if the need is positive. |
| CoinSelection.NoneCoversWhenNeverCovered | internal/adapter/chain/bitcoin/adapter.go:366-373 | When the greedy loop gives up, no selection of the coins covers the need. |
| BitcoinTransfers.BuildTransfer | internal/adapter/chain/bitcoin/adapter.go:129-203 | For all 64-bit amounts each input names the hash and output number of one selected mature coin, the amount and then the change are paid, or the first text that does not parse is reported. Where no sum wraps, insufficient funds is reported exactly when the mature coins cannot pay, the selection is a best one, and for amount plus fee of at least zero inputs equal outputs plus fee. |
| BitcoinTransfers.Assemble | internal/adapter/chain/bitcoin/adapter.go:151-197 | Inputs name the selected coins in order, by parsed hash and output number, with each coin's script beside them; the recipient is paid in full, change that is positive goes to the sender, and value is conserved exactly when the change is neither negative nor wraps; of several bad texts the first in the code's order is reported. |
| BitcoinTransfers.Outputs | internal/adapter/chain/bitcoin/adapter.go:180-185 | Change is paid exactly when its 64-bit value is positive, in that amount; inputs equal payment plus change plus fee if and only if the exact change lies between zero and 2^63. |
| BitcoinTransfers.Inputs | internal/adapter/chain/bitcoin/adapter.go:169-178 | The loop succeeds exactly when every txid parses; input i then has the parsed hash and the output number of coin i, no script, the final sequence, and coin i's script beside it. |
| BitcoinTransfers.PayableExactlyWhenTotalSuffices | internal/adapter/chain/bitcoin/adapter.go:145-149 | Coins are found for a positive need if and only if the total of the coins reaches it. |
| BitcoinTransfers.SelectedIsFetched | internal/adapter/chain/bitcoin/adapter.go:136-149 | Every selected coin was fetched and may be spent in the next block. |
| BitcoinTransfers.NoCoinIsSpentTwice | internal/adapter/chain/bitcoin/adapter.go:169-178 | If the node lists no pair of transaction hash and output number twice, no two inputs of the transfer spend the same coin. |
| BitcoinTransfers.DigestIgnoresInputScripts | internal/adapter/chain/bitcoin/adapter.go:221-225 | The legacy SIGHASH_ALL digest of an input does not depend on what is in the transaction's input scripts. |
| BitcoinTransfers.Sign | internal/adapter/chain/bitcoin/adapter.go:221-239 | After the in-place loop every input script is, in this order, a signature with the byte 1 behind it and the public key; the signature is over the hash of the finished transaction with the spent coin's script on that input, no other input script, and hash type 1. Only input scripts differ, and signing succeeds exactly when every input can be signed so. |
| BitcoinTransfers.SignedInputsAreAccepted | internal/adapter/chain/bitcoin/adapter.go:230-238 | The node's side: the script splits into signature and key, the last signature byte is 1, and the key verifies the rest over that preimage. |
| BitcoinTransfers.OneSignature | internal/adapter/chain/bitcoin/adapter.go:222-237 | One iteration signs that preimage of the transaction as it then is, and fails exactly when the input cannot be signed. |
| BitcoinTransfers.SignedOverTheCoinsOwnScript | internal/adapter/chain/bitcoin/adapter.go:169-178 | From building to signing, input i has the parsed hash and output number of the i-th selected coin and is signed over exactly that coin's script; the outputs stay. |
| DerivationPaths.ParsePath | internal/hdwallet/hdwallet.go:74-97 | The loop returns the specified parse, an index per component in order or an error on the first bad one. |
| DerivationPaths.ParserAcceptsExactlyTheLanguage | internal/hdwallet/hdwallet.go:74-97 | A text is accepted if and only if it is "m/" followed by slash-separated components of digits below 2^32 with at most one trailing quote. |
| DerivationPaths.ComponentsParsePointwise | internal/hdwallet/hdwallet.go:81-95 | A list of components parses exactly when each does, each index coming from its own component. |
| DerivationPaths.PathsParse | internal/hdwallet/hdwallet.go:76-96 | A path of the language parses to the indices of its components, in order. |
| DerivationPaths.QuoteHardensExactlyBelowHalf | internal/hdwallet/hdwallet.go:90-93 | A quoted component gives a hardened index if and only if its number is below 2^31. |
| DerivationPaths.ComponentValue | internal/hdwallet/hdwallet.go:86-94 | An unquoted number is its own index; quoted, it is 2^31 more, or 2^31 less when the sum wraps. |
| DerivationPaths.ValueByDigits | internal/hdwallet/hdwallet.go:86 | Digit by digit the number read is what decimal notation says. |
| DerivationPaths.ParseOfPrint | internal/hdwallet/hdwallet.go:74-97 | Printing any non-empty index sequence and parsing the text gives the sequence back. |
| DerivationPaths.PrintingNormalises | internal/hdwallet/hdwallet.go:74-97 | Parsing an accepted path, printing and parsing again gives the same indices. |
| DerivationPaths.PrintOfParse | internal/hdwallet/hdwallet.go:74-97 | The text survives parsing and printing if and only if no component has leading zeros or a number of 2^31 or more. |
| DerivationPaths.JoinOfSplit | internal/hdwallet/hdwallet.go:79 | Joining the pieces of a split gives the text back, and no piece contains the separator. |
| DerivationPaths.SplitOfJoin | internal/hdwallet/hdwallet.go:79 | Splitting joined separator-free pieces gives the pieces back. |
| DerivationPaths.ValueOfDecimal | internal/hdwallet/hdwallet.go:86 | Reading the decimal text of a number gives the number. |
| DerivationPaths.DecimalOfValue | internal/hdwallet/hdwallet.go:86 | Writing the value of a text without leading zeros gives the text. |
| KeyDerivation.DeriveKeyEd25519 | internal/hdwallet/hdwallet.go:42-72 | There is a key if and only if the path parses to indices of 2^31 or more only. It is the end of a chain of nodes: the first from HMAC keyed with the text "ed25519 seed" over the seed, each next from HMAC keyed with the chain code over a zero byte, the key and the big-endian index; key and chain code are the digest's halves. |
| KeyDerivation.ChainsEndInTheDescent | internal/hdwallet/hdwallet.go:52-68 | Any chain of nodes along the indices, so described, ends where the fold ends: there is one key per path. |
| KeyDerivation.DescentEndsTheChain | internal/hdwallet/hdwallet.go:52-68 | The fold is the end of such a chain. |
| KeyDerivation.MessageLayout | internal/hdwallet/hdwallet.go:59-62 | The hashed message has 37 bytes and determines key and index, so no two children of a node share it. |
| KeyDerivation.Ser32 | internal/hdwallet/hdwallet.go:56-57 | The four bytes are the index in big-endian order, for every 32-bit index. |
| KeyDerivation.DescentComposes | internal/hdwallet/hdwallet.go:52-68 | Deriving along p followed by q is deriving along q from the key and chain code reached by p. |
| KeyDerivation.DescentOfChild | internal/hdwallet/hdwallet.go:52-68 | Deriving one level deeper is one child step from the parent. |
| KeyDerivation.DeriveKey | internal/hdwallet/hdwallet.go:20-37 | The key is the last of a chain that starts with the seed's master and derives each key from the one before at the path's index for that place; there is none exactly when the seed has no master, the path does not parse or a key of the chain has no child at its index. |
| KeyDerivation.KeyChainsAgree | internal/hdwallet/hdwallet.go:29-35 | Chains of keys from one seed along one path agree as far as both go, so a key and a failure exclude each other. |
| KeyDerivation.DerivationOfChild | internal/hdwallet/hdwallet.go:29-35 | The fold over no indices is the key itself, and over one index more it is one derivation more at that index. |
| KeyDerivation.DerivationComposes | internal/hdwallet/hdwallet.go:29-35 | The fold over p followed by q continues from the key of p and fails exactly where a leg fails. |
| KeyDerivation.Bip44PathMeaning | internal/app/wallet_service.go:85-98 | The formatted path parses to purpose 44', the chain's coin type', account 0' and two unhardened zeros. |
| KeyDerivation.Bip44Texts | internal/app/wallet_service.go:87-98 | The five paths as texts: coin type 0 for Bitcoin, 60 for Ethereum and Base, 501 for Solana, 195 for TRON. |
| KeyDerivation.Bip44Numbers | internal/app/wallet_service.go:87-98 | The five paths as 32-bit numbers. |
| KeyDerivation.Bip44PathIsPrinted | internal/app/wallet_service.go:97 | The formatted path is the canonical text of its indices. |
| KeyDerivation.Bip44PathIsNotAllHardened | internal/app/wallet_service.go:95-98 | For every chain the path has an unhardened index, so ed25519 derivation refuses it. |
| WalletStore.PostgresWallet.Save | internal/adapter/repository/postgres.go:24-52 | The wallet upsert and all account upserts take effect together or not at all; a taken address or a failure leaves every row as it was. |
| WalletStore.PostgresWallet.Get | internal/adapter/repository/postgres.go:54-71 | A missing wallet, a failed query and a found wallet are told apart exactly; what is found has its row's columns and exactly its account rows in some order. |
| WalletStore.PostgresWallet.AccountsFor | internal/adapter/repository/postgres.go:103-126 | The list has exactly the wallet's account rows, each once, unless the query fails. |
| WalletStore.PostgresWallet.List | internal/adapter/repository/postgres.go:73-101 | Every wallet is listed exactly once with exactly its own accounts, unless the row query, or the account query of some wallet, fails. |
| WalletStore.InMemoryWallet.List | internal/adapter/repository/memory.go:37-45 | Exactly the stored wallets, each once. |
| WalletStore.UpsertedRows | internal/adapter/repository/postgres.go:39-49 | Each listed chain ends with its last listed account, every other row of any wallet stays, and no row disappears. |
| WalletStore.UpsertsSucceedExactlyWhenFree | db/schema.sql:39 | Account upserts succeed if and only if no listed address belongs to another wallet on the same chain. |
| WalletStore.SaveSucceedsExactlyWhenResultIsUnique | db/schema.sql:39 | A save that names each chain once succeeds if and only if the rows it would leave have no (chain, address) twice, and then leaves those rows. |
| WalletStore.SaveKeepsConstraints | db/schema.sql:30-50 | Every save keeps the foreign keys and each (chain, address) owned by one wallet. |
| WalletStore.SavesOnlyAdd | internal/adapter/repository/postgres.go:31-45 | No save removes a wallet or account row or moves a creation time, and it adds rows only for its own wallet and listed chains. |
| WalletStore.AgreeAgainExactlyWhenFaithful | internal/adapter/repository/memory.go:20-25 | Stores that agree still agree after a save if and only if it names each chain once and repeats the wallet's creation time and all its chains. |
| WalletStore.StoresAgree | internal/adapter/repository/postgres.go:24-52 | Over every history of successful saves that only grow wallets, the tables and the in-memory map hold the same wallets up to account order. |
| WalletStore.AgreeingStoresAnswerAlike | internal/adapter/repository/postgres.go:54-71 | What either store answers for an id is the same wallet, its accounts equal as multisets. |
| WalletStore.AgreeingStoresListAlike | internal/adapter/repository/memory.go:37-45 | The two listings have the same length, the same ids each once, and under each id the same wallet up to account order. |
| WalletStore.ListingsArePermutations | internal/adapter/repository/postgres.go:103-126 | Any two listings of a wallet's accounts are permutations of each other. |
| WalletServices.WalletService.Create | internal/app/wallet_service.go:24-59 | How far it gets is decided exactly by the outcomes of its three writes and by whether a derived address already belongs to another wallet; the tables end, row by row, as that stage says. If all three succeed and the addresses are free, and only then, the wallet is returned, with one account per chain that derives, all stored. |
| WalletServices.AfterInRows | internal/app/wallet_service.go:34-57 | The tables after each stage: wallet row with its first creation time, sealed seed from the second stage on, account rows of the wallet from the last, every other row as before. |
| WalletServices.SecondSaveSucceedsExactlyWhenFree | internal/app/wallet_service.go:55-57 | The save of the accounts succeeds if and only if no derived address belongs to another wallet on its chain. |
| WalletServices.IdReadsBack | internal/app/wallet_service.go:25 | The id is the letter w and the instant in decimal. |
| WalletServices.WalletService.DeriveAccounts | internal/app/wallet_service.go:43-53 | In whatever order the registry lists its chains, there is exactly one account for each chain whose adapter derives one. |
| WalletServices.FreshAttemptKeepsSound | internal/app/wallet_service.go:24-59 | Wherever a creation with a fresh id stops, every keystore and account row has its wallet, and every account is re-derivable from its wallet's sealed seed by a passphrase. |
| WalletServices.HistoriesStaySound | internal/app/wallet_service.go:24-59 | Over every history of creations at distinct instants, each failing anywhere, the same holds for the whole database. |
| WalletServices.EverySealedWalletIsRecoverable | internal/app/wallet_service.go:38-58 | Over every such history, for each creation that got as far as storing its seed, its own passphrase opens what is stored to its own seed, and every account of its wallet derives from that seed. |
| WalletServices.IdsDifferExactlyWithInstants | internal/app/wallet_service.go:25 | Two creations get different ids if and only if their instants differ. |
| WalletServices.ReusedIdStrandsAccountsExactlyUnlessSeedsAgree | internal/adapter/keystore/postgres.go:35-39 | Distinct instants are needed: after a finished creation and one at the same instant that stops at its seed, the database is sound if and only if the second envelope opens to seeds that derive each of the first one's accounts. |
| WalletServices.Ed25519ChainsAreSkipped | internal/app/wallet_service.go:48-51 | A chain whose adapter derives only along hardened paths gets no account. |
| EvmFees.TipScaling | internal/adapter/chain/evm/adapter.go:215-225 | The scaled tip is within one unit below the exact ratio, monotone in the tip and ordered economy, standard, fast. |
| EvmFees.EstimateInNumbers | internal/adapter/chain/evm/adapter.go:80-98 | Fast is three halves of the tip and economy four fifths, rounded down; the total is exactly 21000 times twice the base fee plus the scaled tip, and the three parameters are those numbers in decimal. |
| EvmFees.EstimateBoundsCost | internal/adapter/chain/evm/adapter.go:85-128 | The transfer carries the estimated numbers through their text form, its cap is never below its tip, and the estimated total bounds the cost in any block for any gas used. |
| EvmFees.NoFasterThanRisen | internal/adapter/chain/evm/adapter.go:86-87 | Under the EIP-1559 update rule no sequence of blocks raises the base fee faster than full blocks do. |
| EvmFees.FiveBlocksAreCoveredExactlyFromFive | internal/adapter/chain/evm/adapter.go:86-87 | The cap still pays base fee and full tip after any five blocks if and only if the base fee is at least 5 wei. |
| EvmFees.CoveredExactlyWhileNotDoubled | internal/adapter/chain/evm/adapter.go:86-87 | For every number of blocks, tip, speed and base fee: the cap pays base fee and full tip after any blocks of that number if and only if that many full blocks do not more than double the base fee. |
| EvmFees.SixBlocksAreNeverCoveredFrom207 | internal/adapter/chain/evm/adapter.go:86-87 | Six blocks are covered for no base fee of 207 wei or more and none below 6; 206 is covered. |

## Left out

- HTTP and CLI transports, configuration, `main` wiring, Docker: plumbing.
- RPC clients, SQL drivers and the Kafka publisher with its retry loop: each call succeeds, fails or loses its reply, as
  an argument or a step says.
- Cryptography (secp256k1, ed25519, HMAC, AES-GCM, Argon2id, keccak, base58check): uninterpreted function values.
- Byte and JSON formats of transactions and payloads: the payload is passed on as a value, as if encoding and decoding
  were inverse.
- Solana and TRON adapters, `GetTransaction`, the Noop publisher: thin wrappers.
- Bitcoin's `Balance` sum and the fee-rate arithmetic of its `EstimateFee`, with the conversion of decimal BTC amounts to
  satoshis: transfers start from integer satoshis and a given fee.
- Chain reorganisations: the code does not look for them, and the history is a fixed function from heights to blocks.
  `PipelineSafety.TablesAreTheComprehension` and its neighbours also take transaction hashes to be distinct.
- Tickers, mutexes and goroutine scheduling beyond the interleaving of steps.
- One transition system describes one chain's monitor; several chains on the same tables are covered by
  `TransactionTables.MonitorsAreIndependent`.
- A wallet created or saved while monitoring runs: the address map is fixed for a run, as in the code.
- MonitorServices.MonitorService.Watch: the events received are given as a sequence; the registry lookup and the
  watcher start before the loop are not repeated in it.
- Watchers.Watcher.Tick: does not model the wrap-around of the loop counter at a head of 2^64 - 1; the next block is a
  plain natural number.
- LoopRefinement.SimulatedTick: says nothing about a tick that has something to send to a stopped monitor, because such
  a tick never returns.
- CoinSelection.SelectUtxos: the library sort is any descending permutation of the coins.
- CoinSelection.KeepSpendable: the difference of head and coin height is unbounded, not 64-bit.
- BitcoinTransfers.BuildTransfer: does not model a failing fetch of coins or head, which ends the call before anything
  is built.
- BitcoinTransfers.Sign: takes a payload with a script per input, as `BuildTransfer` makes it; with fewer the code
  panics.
- WalletStore.StoresAgree: creation times are abstract instants; the rounding of a stored timestamp to microseconds,
  which the in-memory store does not do, is not modelled.
- WalletServices.WalletService.Create: the sealing of the seed is one fact, that the passphrase opens the envelope to
  the seed; adapters are taken to label an account with their own chain and the given path.
- WalletServices.IdsDifferExactlyWithInstants: instants are non-negative nanosecond counts.
- Aliasing of the `Accounts` slice between a saved in-memory wallet and its caller: wallets are values.
