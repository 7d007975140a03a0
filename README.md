# islobsterble client core in Dafny

islobsterble is an iOS client for a word game played on a 15×15 board with a 7-tile rack.
This project models the logic of the client that does not depend on the screen or the network:

- **The turn-scoring engine.** It collects the tiles placed this turn and rejects placements that are off one line or leave a gap. It then scores the cross words, the main word, the 50-point bingo and the two single-tile special cases.
- **Letters.** Their equality, hashing and JSON field encoding.
- **The play space.** This covers:
  - the rack and board operations: recalling tiles, finding empty slots and cells, shifting and shuffling the rack, dropping a dragged tile, choosing a blank and clearing;
  - building the tile lists sent for a play or an exchange;
  - comparing rack contents;
  - the end-of-game scan that finds the winner.
- **Queues.** The fixed-capacity circular `IntQueue` used by the board search, and the doubly-linked `ObservableQueue`.
- **Shuffling.** The Fisher–Yates permutation.
- **Access tokens.** The key-chain string codec, the bearer header and expiry.
- **Screens.** The move-history formatting, the dictionary screen (query cleaning, messages, sorted word list), the settings screen (friend keys, dictionary selection, saved settings) and the game summary in the game list.
- **Device tokens.** The hex rendering of the notification device token.

The model keeps the form of the Swift code:

- **Classes and methods.** Objects whose state changes become classes with methods proved against specification functions: `ScoreComputer`, `PlaySpace`, `IntQueue`, `ObservableQueue`, `MoveHistoryView`, `DictionaryView` and `SettingsView`. Swift arrays are values, so array state is held in `seq` fields that the methods reassign. `IntQueue` keeps its fixed-size `array`. `ObservableQueue` keeps real linked nodes.
- **Functions and lemmas.** Pure code becomes functions and lemmas: `Letter`, the token codec, the display strings and the hex encoding.
- **Inputs instead of effects.** Randomness, the clock and server answers become parameters:
  - draws for `Int.random`;
  - `now` for `Date()`;
  - the decoded server data for each response.
- **Integer times.** Times are whole seconds.
- **Traps become `None`.** A Swift trap (a failed force-unwrap or an index out of range) becomes `None` where the source could reach it. Otherwise the caller's guarantee becomes a `requires`.

Behaviour worth knowing that the model states as the code has it:

- **Single tiles.** A single placed tile is classified as horizontal.
- **Locked multipliers.** Multipliers under locked tiles never count.
- **Letter counting.** `countLetters` stores one less than the number of occurrences. Comparing two racks is still exact multiset equality.
- **Empty `poll`.** `poll` on an empty `IntQueue` returns nil but still advances `front`. Afterwards `getSize` reports `maxSize - 1`.
- **Key-chain strings.** A certificate containing `@` does not survive the key-chain round trip.

## Model

| member | source | states |
|---|---|---|
| Letters.EqualIsFieldwise | islobsterble/game/Letter.swift:23-31 | `==` holds exactly when letter, blank flag and value all agree, and equal letters are exactly those that feed the hasher the same input |
| Letters.Encode | islobsterble/game/Letter.swift:42-48 | encoding writes exactly the keys letter (a one-character string), is_blank and value, and writes null exactly when there is no value |
| Letters.Decode | islobsterble/game/Letter.swift:34-40 | a successful decode reads the three keys back into the fields |
| Letters.DecodeEncode | islobsterble/game/Letter.swift:34-48 | decoding an encoded letter gives the letter back |
| Letters.EncodeDecode | islobsterble/game/Letter.swift:34-48 | encoding a decoded map gives back that map's three keys |
| Scoring.ScoreComputer.constructor | islobsterble/ScoreComputer.swift:19-39 | the engine holds the four grids it was given and the tiles placed this turn |
| Scoring.UnlockedSpec | islobsterble/ScoreComputer.swift:22-35 | the collected tiles are exactly the non-empty unlocked cells, each with its value, sorted row-major |
| Scoring.ScoreComputer.ComputeScore | islobsterble/ScoreComputer.swift:41-73 | the method's result equals the specification `Score` of the board |
| Scoring.ScoreComputer.CrossWords | islobsterble/ScoreComputer.swift:56-60 | the loop sums the cross-word score through every placed tile |
| Scoring.ScoreComputer.GetAxis | islobsterble/ScoreComputer.swift:75-89 | the axis found by the two row and column sets is `AxisOf` the placed tiles |
| Scoring.ScoreComputer.IsContiguous | islobsterble/ScoreComputer.swift:90-106 | the walk from the first to the last placed tile finds no empty cell exactly when the tiles are `Contiguous` |
| Scoring.ScoreComputer.VerticalMin | islobsterble/ScoreComputer.swift:119-125 | the walk up stops at the start of the run of tiles (`RunStart`) |
| Scoring.ScoreComputer.VerticalMax | islobsterble/ScoreComputer.swift:126-132 | the walk down stops at the end of the run (`RunEnd`) |
| Scoring.ScoreComputer.HorizontalMin | islobsterble/ScoreComputer.swift:133-139 | the walk left stops at the start of the run |
| Scoring.ScoreComputer.HorizontalMax | islobsterble/ScoreComputer.swift:140-146 | the walk right stops at the end of the run |
| Scoring.RunStartSpec | islobsterble/ScoreComputer.swift:119-139 | the run start is in the grid and not after the start cell; every cell from it up to the start holds a tile; the cell before it is empty or off the board |
| Scoring.RunEndSpec | islobsterble/ScoreComputer.swift:126-146 | the run end is in the grid and not before the start cell; every cell up to it holds a tile; the cell after it is empty or off the board |
| Scoring.RunOccupied | islobsterble/ScoreComputer.swift:119-146 | the run through an occupied cell contains it, and every cell of it holds a tile |
| Scoring.ScoreComputer.ScoreAxis | islobsterble/ScoreComputer.swift:147-182 | the loop computes the word score through a cell: 0 for a one-cell run, otherwise the sum of letter scores times the word multipliers of unlocked cells |
| Scoring.ScoreComputer.RunScore | islobsterble/ScoreComputer.swift:160-181 | the accumulation loop yields the span's letter sum times its word multiplier |
| Scoring.SoloScoreOnBoard | islobsterble/ScoreComputer.swift:51-55 | a tile scored on its own is its value times both multipliers of its cell |
| ScoringProperties.AxisOfSpec | islobsterble/ScoreComputer.swift:75-89 | no axis iff the tiles span several rows and several columns; horizontal iff they share one row; vertical iff they share one column but not one row |
| ScoringProperties.SingleTileIsHorizontal | islobsterble/ScoreComputer.swift:85-86 | a single tile is classified as horizontal |
| ScoringProperties.UnlockedShape | islobsterble/ScoreComputer.swift:22-35 | the collected tiles share a row (column) iff every tile placed this turn is in one row (column) |
| ScoringProperties.RowGapIff | islobsterble/ScoreComputer.swift:90-106 | for tiles in one row, the contiguity check fails iff an empty cell lies between two placed tiles; locked tiles may fill the gaps |
| ScoringProperties.ColumnGapIff | islobsterble/ScoreComputer.swift:90-106 | the same for tiles in one column |
| ScoringProperties.ScoreRejectsIff | islobsterble/ScoreComputer.swift:45-50 | the score is nil iff the placed tiles are neither in one row nor in one column, or their line has a gap |
| ScoringProperties.NothingPlacedIff | islobsterble/ScoreComputer.swift:42-44 | nothing is collected iff no tile was placed, and then the score is 0 |
| ScoringProperties.OnlyTile | islobsterble/ScoreComputer.swift:22-29 | a board with one placed tile collects exactly that tile |
| ScoringProperties.CenterOpening | islobsterble/ScoreComputer.swift:51-55 | one tile placed on ((rows-1)/2, (columns-1)/2) scores its value times both multipliers of that cell |
| ScoringProperties.IsolatedTileScoresItself | islobsterble/ScoreComputer.swift:66-71 | a lone tile off the centre with no neighbour scores 0 in words and falls back to its value times both multipliers |
| ScoringProperties.BingoBonus | islobsterble/ScoreComputer.swift:63-65 | an accepted play of all seven rack tiles scores the cross words and main word plus 50, with no special case |
| ScoringProperties.ScoreIgnoresOtherMultipliers | islobsterble/ScoreComputer.swift:147-182 | boards that differ only in multipliers that are not under this turn's tiles get the same score |
| Racks.FirstEmpty | islobsterble/game/PlaySpace.swift:325-334 | a found slot is at or after the start and empty |
| Racks.FirstEmptySpec | islobsterble/game/PlaySpace.swift:325-334 | the slot found is the least empty slot at or after the start; none is found iff all slots from the start hold tiles |
| PlaySpaces.PlaySpace.NextEmptyRackIndex | islobsterble/game/PlaySpace.swift:325-334 | the search loop returns `FirstEmpty` of the rack from the start |
| PlaySpaces.PlaySpace.EmptySlotFrom | islobsterble/game/PlaySpace.swift:326-333 | the loop over a rack returns `FirstEmpty` from the start |
| Racks.Recalled | islobsterble/game/PlaySpace.swift:309-312 | a recalled tile keeps its value and blank flag, a blank shows `-` again, and a real tile never becomes the empty sentinel |
| Racks.FillSpec | islobsterble/game/PlaySpace.swift:300-324 | filling a rack puts the i-th tile into the i-th empty slot, in increasing order, and leaves every other slot as it was |
| Racks.FillFull | islobsterble/game/PlaySpace.swift:301-305 | a rack with no empty slot is left unchanged |
| Racks.NoEmptySlot | islobsterble/game/PlaySpace.swift:301-305 | there is no empty slot iff the rack has no empty slots to count |
| Racks.FillingOneSlot | islobsterble/game/PlaySpace.swift:313 | putting a tile into an empty slot leaves one empty slot fewer |
| Racks.FillKeepsTiles | islobsterble/game/PlaySpace.swift:313-315 | filling keeps every tile: the rack's tiles plus the recalled ones equal the filled rack plus the slots used |
| Racks.NearestSpec | islobsterble/game/PlaySpace.swift:347-373 | -1 iff no slot is empty; otherwise an empty slot with no empty slot nearer to the new index, preferring the slot above it when two are equally near |
| PlaySpaces.PlaySpace.NearestRackEmpty | islobsterble/game/PlaySpace.swift:347-373 | the loop over distances returns `Nearest` of the rack as read through the drag slot |
| Racks.View | islobsterble/game/PlaySpace.swift:409-414 | the rack as read during a drag (the shuffle state at the dragged tile's original slot) has the rack's length |
| Racks.WriteDrag | islobsterble/game/PlaySpace.swift:416-422 | writing through the drag slot changes that one slot of the view, and touches the shuffle state only at the original slot |
| PlaySpaces.PlaySpace.SetDragIndex | islobsterble/game/PlaySpace.swift:416-422 | the rack and shuffle state become what `WriteDrag` gives; nothing else changes |
| Racks.ShiftedSpec | islobsterble/game/PlaySpace.swift:424-441 | after a shift the new index is empty, tiles between it and the empty slot move one step toward that slot, and all others stay |
| Racks.ShiftedKeepsLetters | islobsterble/game/PlaySpace.swift:424-441 | shifting into an empty slot keeps the multiset of letters |
| PlaySpaces.ShiftEnds | islobsterble/game/PlaySpace.swift:434-440 | running the stride loop to its end gives exactly `Shifted` |
| PlaySpaces.PlaySpace.StrideShift | islobsterble/game/PlaySpace.swift:436-440 | each pass moves the previous letter one slot along, ending in `PartialShift` to the end, and only the drag slot touches the shuffle state |
| PlaySpaces.PlaySpace.ShiftRack | islobsterble/game/PlaySpace.swift:424-441 | with an empty slot in the drag view, that view becomes `Shifted` toward the nearest one, the shuffle state changes only at the original slot and nothing else changes; with none, where the stride reaches index -1 and the source traps, the shift fails and the state is unchanged |
| Racks.CountLetters | islobsterble/game/PlaySpace.swift:758-768 | the counts hold exactly the letters in the list, each mapped to its number of occurrences minus one |
| Racks.EqualTileCounts | islobsterble/game/PlaySpace.swift:769-783 | the comparison is true exactly when the two lists hold the same multiset of letters |
| UtilityFuncs.Iota | islobsterble/utilities/UtilityFuncs.swift:14-17 | the first loop builds 0, 1, …, size-1 |
| UtilityFuncs.Shuffle | islobsterble/utilities/UtilityFuncs.swift:18-24 | the swaps keep the length |
| UtilityFuncs.ShufflePermutes | islobsterble/utilities/UtilityFuncs.swift:18-24 | for every sequence of draws in range, the result is a permutation of the input |
| UtilityFuncs.ShuffleFixesTail | islobsterble/utilities/UtilityFuncs.swift:19-23 | positions above size-index-1 are fixed once step index is done |
| UtilityFuncs.ShuffleIsReindexing | islobsterble/utilities/UtilityFuncs.swift:18-24 | shuffling a sequence equals reading it through the shuffled 0..<size |
| UtilityFuncs.Permutation | islobsterble/utilities/UtilityFuncs.swift:13-25 | the method returns the shuffle of 0..<size: it has length size and holds each of 0..<size exactly once |
| PlaySpaces.PlaySpace.ShuffleTiles | islobsterble/game/PlaySpace.swift:289-298 | the rack becomes the old rack read through the permutation (`rack[i] = old[order[i]]`); nothing else changes |
| Turns.ExchangeTilesSpec | islobsterble/game/PlaySpace.swift:179-195 | one exchange tile per chosen slot: no row or column, marked as exchange, letter nil exactly for blanks, each from a chosen rack slot |
| PlaySpaces.PlaySpace.ExchangeTurn | islobsterble/game/PlaySpace.swift:179-202 | returns `ExchangeTiles` of the chosen slots, closes the picker and clears every choice |
| PlaySpaces.PlaySpace.ChooseTileForExchange | islobsterble/game/PlaySpace.swift:163-165 | flips the choice of one rack slot and changes nothing else |
| Turns.PlayTilesAt | islobsterble/game/PlaySpace.swift:234-243 | tile i of the play carries the letter, row and column of cell i |
| Turns.PlayTilesSpec | islobsterble/game/PlaySpace.swift:230-249 | the play lists exactly the unlocked non-empty cells, row-major, each with its row, column and letter, and not marked as exchange |
| PlaySpaces.PlaySpace.PlayTurn | islobsterble/game/PlaySpace.swift:230-249 | the nested loop returns `PlayTiles` of the collected cells |
| PlaySpaces.ClearCellsAt | islobsterble/game/PlaySpace.swift:314 | a cleared cell is empty and every other cell is unchanged |
| PlaySpaces.RecallSpec | islobsterble/game/PlaySpace.swift:300-324 | recalling moves every placed tile back iff they fit in the empty slots; only the recalled placed cells change, locked cells never do, and no tile is lost |
| PlaySpaces.PlaySpace.RecallScan | islobsterble/game/PlaySpace.swift:301-322 | the scan's rack is the old rack filled with the first n placed tiles, row-major, where n is what fits, and those cells are cleared |
| PlaySpaces.PlaySpace.RecallTiles | islobsterble/game/PlaySpace.swift:300-324 | the rack and board become the scan's result and the count of rack tiles on the board is 0; nothing else changes |
| PlaySpaces.RecallFinished | islobsterble/game/PlaySpace.swift:316-323 | the scan may stop early when the rack is full, with the same result |
| BoardSearch.ClosedCoversGrid | islobsterble/game/PlaySpace.swift:386-404 | a search order that contains the target and every in-grid neighbour of its cells covers the whole grid |
| BoardSearch.DistinctCellsBound | islobsterble/game/PlaySpace.swift:377-378 | distinct in-grid cells number at most rows×columns, so the queues never overflow |
| BoardSearch.GridCellsSpec | islobsterble/game/PlaySpace.swift:376 | the grid holds exactly rows×columns cells |
| PlaySpaces.PlaySpace.NearestBoardEmpty | islobsterble/game/PlaySpace.swift:375-406 | (-1,-1) iff every cell holds a tile; otherwise an empty cell with no empty cell nearer to the target; the target itself when it is empty |
| PlaySpaces.PlaySpace.TakeCell | islobsterble/game/PlaySpace.swift:387-391 | the polled cell is the next in search order; if it is empty, no empty cell is nearer to the target |
| PlaySpaces.PlaySpace.TryNeighbour | islobsterble/game/PlaySpace.swift:393-402 | an in-grid unvisited neighbour is marked and queued; the search invariant holds |
| PlaySpaces.PlaySpace.TryNeighbours | islobsterble/game/PlaySpace.swift:392-403 | all four neighbours are tried and the search invariant holds |
| Drops.SetCell | islobsterble/game/PlaySpace.swift:483 | writing one cell changes that cell and no other |
| Drops.MoveKeepsTiles | islobsterble/game/PlaySpace.swift:481-483 | moving a tile on the board into an empty cell keeps the board's multiset of tiles |
| PlaySpaces.DropOnBoardSpec | islobsterble/game/PlaySpace.swift:468-483 | a tile dropped on the board lands on the nearest empty cell; from the rack it adds one tile to the board and one to the count; from the board it moves the tile; the shuffle state is cleared |
| PlaySpaces.DropOnRackSpec | islobsterble/game/PlaySpace.swift:484-497 | a tile dragged from the board to the rack empties its cell, takes one tile off the board, lowers the count, and lands as a recalled tile unless the shuffle state holds that slot |
| PlaySpaces.DropOffBoardSpec | islobsterble/game/PlaySpace.swift:498-508 | a drop outside the board and rack leaves the board and the count unchanged |
| PlaySpaces.PlaySpace.TileDropped | islobsterble/game/PlaySpace.swift:466-518 | the new state is `Dropped` of the old one, with a nearest empty cell as the board target |
| PlaySpaces.PlaySpace.DropOnBoard | islobsterble/game/PlaySpace.swift:468-483 | the board branch yields `Drop` of the state |
| PlaySpaces.PlaySpace.PlaceFromRack | islobsterble/game/PlaySpace.swift:472-483 | a rack tile put on the board empties its slot, lands at the free cell, raises the count, and for a blank toggles the picker and remembers the cell: `Drop` of the state |
| PlaySpaces.PlaySpace.MoveOnBoard | islobsterble/game/PlaySpace.swift:480-483 | a board tile moved on the board empties its old cell and fills the free cell: `Drop` of the state |
| PlaySpaces.DropFromRackOnBoard | islobsterble/game/PlaySpace.swift:472-483 | a rack tile dropped on the board writes only the free cell, adds itself to the board's tiles, and raises the count by one |
| PlaySpaces.DropFromBoardOnBoard | islobsterble/game/PlaySpace.swift:480-483 | a board tile moved to a free cell empties its old cell, keeps the board's multiset of tiles, and leaves the count as it was |
| PlaySpaces.PlaySpace.DropOnRack | islobsterble/game/PlaySpace.swift:484-497 | the rack branch yields `Drop` of the state |
| PlaySpaces.PlaySpace.KeepDragged | islobsterble/game/PlaySpace.swift:499-507 | a tile dropped nowhere goes into the first empty rack slot |
| PlaySpaces.PlaySpace.RestoreRack | islobsterble/game/PlaySpace.swift:509-514 | every slot the shuffle state holds is copied back into the rack |
| PlaySpaces.PlaySpace.SetBlank | islobsterble/game/PlaySpace.swift:337-345 | the chosen letter replaces the blank's face with the blank flag and value kept; the picker closes and the blank position is forgotten |
| PlaySpaces.PlaySpace.ClearBoard | islobsterble/game/PlaySpace.swift:728-734 | the four grids become empty grids of the given size and the count is 0 |
| PlaySpaces.ClearedBoardEmpty | islobsterble/game/PlaySpace.swift:728-734 | a cleared board has no placed tile and scores 0 |
| PlaySpaces.PlaySpace.ClearRack | islobsterble/game/PlaySpace.swift:736-739 | the rack and shuffle state become seven empty slots |
| PlaySpaces.ClearedRackRoom | islobsterble/game/PlaySpace.swift:736-739 | a cleared rack has seven empty slots and the first one is slot 0 |
| PlaySpaces.PlaySpace.constructor | islobsterble/game/PlaySpace.swift:47-70 | the initial state: empty 15×15 grids with multipliers 1, an empty rack and shuffle state, nothing chosen |
| GameEnd.HighestSpec | islobsterble/game/PlaySpace.swift:665-685 | the highest score is at least the initial -987654321 and every player's score, and is either that initial value or some player's score |
| GameEnd.TopScorersSpec | islobsterble/game/PlaySpace.swift:666-685 | the reset-or-append loop leaves exactly the names of the players with the highest score, in player order |
| GameEnd.SoleWinner | islobsterble/game/PlaySpace.swift:687-690 | with one player strictly ahead, that player is the only top scorer and the message is "Game over. <name> has won!" |
| GameEnd.SharedBestIsDraw | islobsterble/game/PlaySpace.swift:687-693 | with two players sharing the best score, there are at least two top scorers and the message is "Game over. It was a draw!" |
| GameEnd.ScanPlayers | islobsterble/game/PlaySpace.swift:670-686 | the loop detects a player out of tiles, writes the tiles-left lines of the other players when asked, and finds the highest score and its scorers |
| PlaySpaces.PlaySpace.RefreshGameEnd | islobsterble/game/PlaySpace.swift:663-698 | with an empty bag or a completed game: game over when completed or someone is out; the message is the result when over, else the tiles-left lines every interval-th refresh; the refresh count grows by one |
| IntQueues.IntQueue.constructor | islobsterble/utilities/IntQueue.swift:20-25 | a new queue is empty |
| IntQueues.IntQueue.GetSize | islobsterble/utilities/IntQueue.swift:27-40 | the size computed from front, back and the front slot is the number of values held |
| IntQueues.IntQueue.Offer | islobsterble/utilities/IntQueue.swift:41-48 | offering below capacity appends the value |
| IntQueues.IntQueue.Poll | islobsterble/utilities/IntQueue.swift:49-57 | polling a non-empty queue returns and removes the oldest value; polling an empty one returns nil and leaves a size of maxSize-1 |
| ObservableQueues.QueueNode.constructor | islobsterble/utilities/ObservableQueue.swift:81-85 | a new node has its value and no links |
| ObservableQueues.QueueNode.InsertAfter | islobsterble/utilities/ObservableQueue.swift:87-97 | the new node is linked after this one and before the old successor, with links agreeing in both directions; this node's prev and the old successor's next are kept (unless this node was its own successor) |
| ObservableQueues.QueueNode.InsertBefore | islobsterble/utilities/ObservableQueue.swift:98-108 | the new node is linked before this one and after the old predecessor, with links agreeing in both directions; this node's next and the old predecessor's prev are kept (unless this node was its own predecessor) |
| ObservableQueues.ObservableQueue.constructor | islobsterble/utilities/ObservableQueue.swift:11-15 | a new queue is empty |
| ObservableQueues.ObservableQueue.Offer | islobsterble/utilities/ObservableQueue.swift:17-29 | the value is appended at the tail |
| ObservableQueues.ObservableQueue.Poll | islobsterble/utilities/ObservableQueue.swift:31-47 | an empty queue gives nil and keeps head and tail; otherwise the head value is returned and removed |
| ObservableQueues.ObservableQueue.Peek | islobsterble/utilities/ObservableQueue.swift:52-57 | the head value, or nil when empty |
| ObservableQueues.ObservableQueue.Clear | islobsterble/utilities/ObservableQueue.swift:67-73 | the queue becomes empty with no head or tail |
| Text.IntToStringRoundTrip | islobsterble/Token.swift:83 | the decimal rendering of an integer parses back to it |
| Tokens.ToKeyChainString | islobsterble/Token.swift:82-84 | the key-chain string is the certificate, then `@`, then text that parses to the expiration |
| Tokens.FromKeyChainString | islobsterble/Token.swift:76-80 | a read token has a non-empty certificate without `@`, and the string held `@`; None where the source traps |
| Tokens.KeyChainRoundTrip | islobsterble/Token.swift:76-84 | a token with a non-empty certificate without `@` is read back exactly |
| Tokens.ReadBackStable | islobsterble/Token.swift:76-84 | writing and reading a token that was read gives the same token |
| Tokens.SeparatorInCertificate | islobsterble/Token.swift:76-84 | a certificate containing `@` does not survive the round trip |
| Tokens.ToHttpHeaderString | islobsterble/Token.swift:85-87 | the header is "Bearer " followed by the certificate |
| Tokens.HeaderDeterminesCertificate | islobsterble/Token.swift:85-87 | two tokens give the same header iff they have the same certificate |
| Tokens.IsExpired | islobsterble/Token.swift:19-26 | a missing token is expired; otherwise it is expired iff now + 60 is after the expiration |
| MoveHistory.MoveHistoryView.NumMoveRows | islobsterble/game/MoveHistoryView.swift:95-100 | 0 with no players, otherwise the first player's number of moves |
| MoveHistory.MoveHistoryView.RowMoves | islobsterble/game/MoveHistoryView.swift:101-111 | one entry per player, in order: that player's move in the row, or nil; a row below the row count has a move for the first player |
| MoveHistory.Toggled | islobsterble/game/MoveHistoryView.swift:112-118 | the row is in the result iff it was not in the selection; other rows are unchanged |
| MoveHistory.ToggleTwice | islobsterble/game/MoveHistoryView.swift:112-118 | tapping a row twice restores the selection |
| MoveHistory.MoveHistoryView.SelectDeselect | islobsterble/game/MoveHistoryView.swift:112-118 | the selection is toggled at the row and the moves are unchanged |
| MoveHistory.PrimaryDisplayString | islobsterble/game/MoveHistoryView.swift:147-160 | "" iff no move; "Exchange" iff tiles were exchanged; "Pass" iff nothing exchanged and no word; otherwise the word, `:`, and text that parses to the score |
| MoveHistory.ExchangedLettersCount | islobsterble/game/MoveHistoryView.swift:168-179 | one written tile per exchanged tile |
| MoveHistory.ExchangedLettersFrom | islobsterble/game/MoveHistoryView.swift:170-178 | every written tile is the written form of one of the exchanged tiles |
| MoveHistory.ExpandedStrings | islobsterble/game/MoveHistoryView.swift:161-183 | the expansion fails (the force-unwrap at line 174 or the range at line 176 traps) exactly when the move reaches the exchange listing and one of its tiles is not blank without a letter or has a negative count; a play with secondary words and a move without exchanged tiles never fail |
| MoveHistory.MoveHistoryView.ExpandDisplayStrings | islobsterble/game/MoveHistoryView.swift:161-183 | the nested loops return `ExpandedStrings` of the move, stopping with `None` at the first tile that traps |
| MoveHistory.SecondaryWordsShown | islobsterble/game/MoveHistoryView.swift:165-166 | secondary words stored joined by commas are shown one by one |
| MoveHistory.ExchangeShown | islobsterble/game/MoveHistoryView.swift:167-180 | an exchange is one string whose comma-separated parts are the exchanged tiles in order, with one comma fewer than tiles |
| Dictionary.StripInvalid | islobsterble/game/DictionaryView.swift:59-60 | only ASCII letters remain |
| Dictionary.LowerCased | islobsterble/game/DictionaryView.swift:61 | each letter is lower-cased in place |
| Dictionary.Sanitize | islobsterble/game/DictionaryView.swift:59-61 | the sent query is lower-case letters only |
| Dictionary.SanitizeAppend | islobsterble/game/DictionaryView.swift:59-61 | cleaning works piece by piece and keeps order |
| Dictionary.SanitizeChar | islobsterble/game/DictionaryView.swift:59-61 | a letter becomes its lower case and anything else disappears |
| Dictionary.SanitizeFixed | islobsterble/game/DictionaryView.swift:59-61 | a query is sent as typed iff it is lower-case letters only |
| Dictionary.SanitizeIdempotent | islobsterble/game/DictionaryView.swift:59-61 | cleaning twice is cleaning once |
| Dictionary.SanitizeDigitsOnly | islobsterble/game/DictionaryView.swift:43 | an enabled query of digits is sent as the empty word |
| Dictionary.DictionaryView.SubmitQueryWord | islobsterble/game/DictionaryView.swift:58-68 | requires a non-empty query; the query is replaced by its cleaned form, which is the word sent |
| Dictionary.LookupMessageSpec | islobsterble/game/DictionaryView.swift:73-80 | the message names the word, says "not" iff the word is unknown, and has a second line iff a definition came with a known word |
| Dictionary.DictionaryView.ReceiveEntry | islobsterble/game/DictionaryView.swift:72-80 | the message becomes `LookupMessage` and nothing else changes |
| Dictionary.WordLeTotal | islobsterble/game/DictionaryView.swift:127 | any two words are ordered one way or the other |
| Dictionary.WordLeTransitive | islobsterble/game/DictionaryView.swift:127 | the order is transitive |
| Dictionary.SortedPairs | islobsterble/game/DictionaryView.swift:127 | any two words of a sorted list are in order |
| Dictionary.Insert | islobsterble/game/DictionaryView.swift:127 | insertion adds exactly the one word |
| Dictionary.InsertSorted | islobsterble/game/DictionaryView.swift:127 | insertion keeps a list sorted |
| Dictionary.SortedWords | islobsterble/game/DictionaryView.swift:127 | sorting keeps the multiset of words |
| Dictionary.SortedWordsSpec | islobsterble/game/DictionaryView.swift:127 | the sorted list is in order and a permutation of the words received |
| Dictionary.DictionaryView.ReceiveTwoLetterWords | islobsterble/game/DictionaryView.swift:126-127 | the stored list is sorted and holds exactly the words received |
| Settings.KeyCharactersSpec | islobsterble/management_views/SettingsView.swift:178 | the alphabet has 31 distinct characters, upper-case letters or digits 2-9, none of I, L, O, 0, 1 |
| Settings.KeyFromDraws | islobsterble/management_views/SettingsView.swift:179-183 | one alphabet character per draw |
| Settings.FriendKeyShape | islobsterble/management_views/SettingsView.swift:177-183 | a regenerated key has 7 characters, none of I, L, O, 0, 1 |
| Settings.EveryKeyReachable | islobsterble/management_views/SettingsView.swift:177-183 | every 7-character key over the alphabet comes from some draws |
| Settings.SettingsView.RegenerateFriendKey | islobsterble/management_views/SettingsView.swift:177-184 | the friend key becomes `KeyFromDraws`; nothing else changes |
| Settings.FirstIndexOf | islobsterble/management_views/SettingsView.swift:146 | a found index is the first with that name; none is found iff the name is absent |
| Settings.SettingsView.constructor | islobsterble/management_views/SettingsView.swift:19-23 | the initial settings list only the default dictionary, selected |
| Settings.SettingsView.LoadSettings | islobsterble/management_views/SettingsView.swift:138-146 | the names and ids are rebuilt aligned by index from the dictionaries on offer; the index is the first matching name, or 0 |
| Settings.LoadedChoice | islobsterble/management_views/SettingsView.swift:140-146 | after loading a non-empty list, the selection is in range and is the first dictionary with the player's name, or the first one |
| Settings.SettingsView.SavedSettings | islobsterble/management_views/SettingsView.swift:192-193 | the saved settings carry the id and name at the same index; None where the index is outside a list (a trap in the source) |
| Settings.SettingsView.SavedWhenListed | islobsterble/management_views/SettingsView.swift:192-193 | in a valid state with some dictionary listed, saving never traps |
| GameManagement.DisplayEntries | islobsterble/GameManagementView.swift:123-127 | one "name: score" line per player in order, then the turn line |
| GameManagement.Display | islobsterble/GameManagementView.swift:122-129 | the loop's text is the entries joined with newlines |
| GameManagement.NoPlayersDisplay | islobsterble/GameManagementView.swift:127-128 | with no players the summary is only "<name> to play" |
| GameManagement.DisplayLines | islobsterble/GameManagementView.swift:122-129 | when no name has a newline, the summary has one newline per player and splits back into exactly its lines |
| DeviceTokens.ByteHex | islobsterble/AppDelegate.swift:44 | a byte is two lower-case hex digits, high nibble first, whose value is the byte |
| DeviceTokens.HexEncode | islobsterble/AppDelegate.swift:44-45 | the text is twice as long as the bytes and made of hex digits |
| DeviceTokens.HexEncodeAt | islobsterble/AppDelegate.swift:45 | digits 2i and 2i+1 are the pair of byte i, with no separator |
| DeviceTokens.HexRoundTrip | islobsterble/AppDelegate.swift:44-45 | reading the text back two digits at a time gives the bytes |
| DeviceTokens.HexDecodeEncodes | islobsterble/AppDelegate.swift:44-45 | every text the reader accepts is the rendering of the bytes it reads |
| DeviceTokens.HexEncodeInjective | islobsterble/AppDelegate.swift:44-45 | different device tokens render to different text |

## Left out

- Networking: every server request and its JSON decoding. Token renewal, turn submission and game-state fetching are left out. Server answers enter the model as parameters: the settings data, the dictionary entry, the two-letter words and the players at the end of a game.
- User interface: SwiftUI views, drag gestures and layout. `tileMoved` is not modelled because it maps screen points to slots. The `frontTaker` z-ordering in `tileDropped` is left out because it only affects drawing.
- Persistence and the key chain. Saving, loading and clearing the rack state in UserDefaults is not modelled. `tileDropped`'s `persistRackState` and the game-over `clearPersistedRackState` are left out with it.
- The rest of the game-state refresh (`getGameStateRequest` before line 663): the board and rack rebuilt from the server, the player list and the comparison with the saved rack. Only its end-of-game part and the operations it calls (`clearBoard`, `clearRack`, `equalTileCounts`) are modelled.
- PlaySpaces.PlaySpace.RefreshGameEnd: returns the message instead of offering it to the error queue. `SHOW_TILES_REMAINING_INTERVAL` is not defined in the sources at hand, so it is a positive parameter.
- PlaySpaces.PlaySpace.NearestBoardEmpty: states that the result is an empty cell nearest to the target. It does not state which of several equally near cells the breadth-first order picks.
- PlaySpaces.PlaySpace.ClearBoard: the play-space invariant is re-established only for the 15×15 board. The source always passes the server's layout, which is that size.
- PlaySpaces.PlaySpace.TileDropped: requires a drag the interface can produce (`CanDrop`): the start and end are on the board or the rack, a board start holds the tile, and the board has an empty cell when the target is on the board.
- PlaySpaces.PlaySpace.SetBlank: takes the source's assertions (a blank with face `-` at the remembered cell) as its precondition.
- IntQueues.IntQueue.constructor: requires a capacity of at least 1. A zero-capacity queue traps on its first `offer`, which the model does not reproduce.
- IntQueues.IntQueue.Offer: requires room in the queue. The overflow assertion is not modelled as a trap.
- ObservableQueue's `count`, `size()`, `isEmpty()` and `swallowedPoll()`: `count` is updated asynchronously on the main queue, which is concurrency. The model states the queue contents only.
- Tokens: expiration times are whole seconds rather than `Date`/`Double`. Reading back parses an optional `-` and decimal digits, not every literal that `Double(String)` accepts.
- Tokens.FromKeyChainString: returns None where the source traps (fewer than two parts, or an unparsable expiration).
- Dictionary.WordLe: Swift orders strings by Unicode scalar values after normalisation. The model uses character-code order, which agrees on the ASCII two-letter words the server sends.
- Dictionary.LowerCased: is applied after letters-only cleaning, so only ASCII case mapping is needed.
- ObservableQueues.QueueNode.InsertAfter: requires the new node to differ from this node and from its successor. A self-link is not a state the queue produces.
- ObservableQueues.QueueNode.InsertBefore: requires the new node to differ from this node and from its predecessor, for the same reason.
- Letters.Decode: is stated on a map of JSON values rather than on the decoder, and the decoder's errors become None.
- Stale duplicate files at the repository root (for example `islobsterble/PlaySpace.swift` and `islobsterble/Letter.swift`): superseded by the `game/` and `management_views/` versions and not modelled.
- Floating point: screen and tile sizes.
