# Hanabi bot core in Dafny

This project models the decision core of a Hanabi-playing bot written in Python. Hanabi is a
cooperative card game. Players see every hand but their own. They spend clue tokens to tell a
teammate about the cards in that teammate's hand, and they play cards onto one stack per suit
(suits 0..4, ranks 1..5). A discard or a misplay (a "boom") sends the card to the discard pile;
a discard earns a clue token and a boom costs a boom token.

The bot keeps two views of a game.

- **`Snapshot`** (`snapshot.dfy`, `transitions.dfy`, `clue_engine.dfy`, `valid_actions.dfy`) is
  the search state of `src/snapshot.py`. It lists the valid actions of a player and applies an
  action to produce the next snapshot: draw, play, boom, discard and clue. Each card carries a
  *status*, the bot's note on what the holder knows about it (`PLAYABLE_KNOWN_BY_PLAYER`,
  `TRASH_KNOWN_BY_PLAYER`, `USEFUL`, `CLUED_SAVED`, ...). The `_perform_*` methods update these
  notes by convention:
  - a discard marks cards of the next player as `USEFUL` to protect them;
  - a rank-1 clue marks the touched ones playable, up to the number of 1s still missing, and the
    next one as trash;
  - a colour clue finesses its newest touched card towards the next missing rank of the suit;
  - a rank clue is either a save of the discard slot or a play clue.

  The tables (`tables.dfy`: `hints_table`, `discard_table`, `played_ranks`) and the usefulness
  test `is_useful` drive `recalculate_trash_cards` and the bound `_max_score_limit`.
- **`Game`** (`game.dfy`, `game_events.dfy`, `game_policy.dfy`) is the bot's record of the real
  game in `src/game.py`. It handles server actions (`handle_action` and its handlers) and
  classifies cards (`is_trash`, `is_playable`, `is_critical`). `pre_action_intention_check` picks
  the bot's move: save a critical discard slot, play, clue a playable card, or fall back to
  `try_discard`.
- **`snapshot_history`** (`snapshot_chain.dfy`) links the two. Once the deal is complete
  `handle_action` takes an initial snapshot of the game's hands. After that, every action other
  than a draw appends `next_snapshot` of the latest snapshot. The initial snapshot shares its
  hand lists with the game, and every later snapshot deep-copies them. So the history loses
  track of the game's hands (see "Findings").

`conventions.dfy` models `check_convention`, `evaluate` and `evaluate_action` from
`src/conventions.py`. Together they form a depth-limited search that keeps the valid actions that
respect the conventions, scores them and sorts them best first. `client.dfy` models the event
handler `HanabiClient.handle_action` of `src/hanabi_client.py`, the game state it updates
(`src/game_state.py`) and its `remove_card_from_hand`.

Design of the model:

- Python's in-place mutation and `copy.deepcopy` become pure functions on immutable datatypes.
- A Python exception or `None` result becomes `Result`/`Option` (`wrappers.dfy`). A card missing
  from a hand is `CardNotFound`. A `list.index` or `cards[-1]` on an empty list, and a
  missing key of a size table, is `IndexOutOfRange`. A discard of a card that may be useful is `PossiblyUseful`. A clue touching
  nothing while it must pick a focus is `EmptyClue`. A method the client's state object does not
  define is `MissingMethod`.
- Unknown suits and ranks keep the source's `-1`, named `Unknown`.
- `next_snapshot` copies a snapshot field by field and leaves out the deck count, the count of
  final turns and the starting player. The next snapshot therefore has the defaults `-1`, `0` and
  `-1` for them. `Transitions.NextSnapshot` states exactly this.
- A discard may mark a card `USEFUL` even when the recalculation had already noted it as trash.
  Only five statuses are protected from the marks (`Transitions.Protected`):
  - `CLUED_SAVED`;
  - `DIRECT_FINESSED`;
  - `GOOD_TOUCH_SAVED`;
  - `INDIRECT_FINESSED`;
  - `PLAYABLE_KNOWN_BY_PLAYER`.

  A card that is already `USEFUL` is marked again and uses up one of the marks.
- The colour-clue scan for the next missing rank looks at ranks 1 to 4 only. A suit missing only
  its 5 counts as complete, and the clue marks its cards as trash (`ClueEngine.NextMissingRank`).

## Model

| member | source | states |
|---|---|---|
| Cards.NewCard | src/card.py:9-25 | a new card has the given order, suit and rank, no clues, no finesses, no negative information and status `UNSPECIFIED` |
| Cards.AddClue | src/card.py:27-28 | `add_clue` appends exactly the given clue and changes nothing else about the card |
| Cards.AddClueStoresSnapshot | src/card.py:27-28 | the stored clue keeps the classification it had when added; recording it with another classification gives a different card exactly when the classifications differ |
| Cards.AddNegativeInfo | src/game.py:376-377 | a card not touched by a rank clue records that rank as excluded, and by a colour clue that colour; the clue list and status are unchanged |
| Cards.AddNegativeSuit | src/game.py:453-456 | excluding a suit appends exactly that suit to the card's excluded colours |
| Cards.AddFinesse | src/snapshot.py:409-414 | a finesse is appended to the card's finesse list; identity, clues and status are unchanged |
| Constants.CopiesOf | src/snapshot.py:193-195 | a rank has copies exactly when it is 1..5, and a 5 has one copy |
| Constants.PySlot | src/game.py:174 | a Python index `-n <= i < n` addresses slot `i`, or `n + i` when negative |
| Hands.FindSlot | src/snapshot.py:526-534 | the slot found is the first one holding the order; none exactly when no card has it |
| Hands.CardByOrder | src/snapshot.py:536-543 | a card is returned exactly when the hand holds the order, and it is a card of the hand with that order |
| Hands.RemoveCard | src/snapshot.py:514-524 | removing a missing order leaves the hand as it is; otherwise the first card with that order is taken out, the rest keep their order, and the multiset of cards is preserved |
| Hands.CardsInHandsUpdate | src/snapshot.py:514-524 | replacing one hand changes the total count of cards in hands by exactly that hand's change in size |
| Seqs.Dedup | src/snapshot.py:133-139 | the deduplicated list has no repeats and exactly the members of its input |
| Seqs.DedupKeepsFirst | src/snapshot.py:133-139 | the deduplicated list is the first occurrence of each value, in input order |
| Seqs.SortDesc | src/snapshot.py:350 | `sorted(..., reverse=True)` returns a descending permutation of its input |
| Seqs.SortDescNoDuplicates | src/snapshot.py:350 | sorting a list without repeats gives a list without repeats |
| Tables.DiscardTableCounts | src/snapshot.py:562-567 | each cell of the discard table counts the discarded cards of that suit and rank |
| Tables.CountAtRevealed | src/snapshot.py:562-567 | for revealed cards the table cell equals the multiplicity of `(suit, rank)` in the pile |
| Tables.PlayedRanksIsMax | src/snapshot.py:569-574 | the played rank of a suit is the highest rank of that suit on the play pile, or 0 when none |
| Tables.HintsTableCounts | src/snapshot.py:545-560 | each cell of the hints table counts the noted cards of that identity in every hand except the viewer's |
| Tables.HandHintCountStatusOnly | src/snapshot.py:545-560 | the hints count depends only on identities and on whether a status is `UNSPECIFIED` |
| Tables.RemovalInRange | src/snapshot.py:514-524 | a card removed from an in-range hand, and the rest of the hand, stay in range |
| Snapshots.Initialize | src/snapshot.py:58-68 | a new snapshot has full clue and boom tokens, empty piles and history, and the initial cards are all hands in order; deck plus initial cards make the full deck |
| Snapshots.MaxScoreLimitBounds | src/snapshot.py:186-197 | the score limit lies between 0 and 5 per suit; it is the full score when nothing is discarded, and otherwise exactly when no identity is exhausted |
| Snapshots.SuitLossIsLowestExhausted | src/snapshot.py:186-197 | a suit loses nothing exactly when no rank is exhausted; otherwise it loses every rank from its lowest exhausted rank upwards |
| Snapshots.TotalLossZero | src/snapshot.py:186-197 | the total loss is zero exactly when no suit has an exhausted rank |
| Snapshots.RecalcCard | src/snapshot.py:576-594 | a card is noted `TRASH_KNOWN_BY_PLAYER` exactly when it is not useful; a useful card is unchanged |
| Snapshots.RecalculateTrashCards | src/snapshot.py:576-594 | every hand card is noted trash exactly when it is not useful; no trash note is removed; only statuses change |
| Snapshots.IsUsefulIgnoresHands | src/snapshot.py:596-618 | usefulness reads only the piles, so a change of statuses in hands does not change it |
| Snapshots.RecalculateIdempotent | src/snapshot.py:576-594 | recalculating twice gives the same snapshot as recalculating once |
| Snapshots.UniqueSuitsInRank | src/snapshot.py:468-481 | a suit is listed exactly when one copy of the rank is left and the rank is not yet played |
| Snapshots.PendingDiscardSlot | src/snapshot.py:483-504 | no slot when a card is known playable or trash; otherwise the oldest `UNSPECIFIED` card, else the oldest `USEFUL` card |
| Snapshots.FirstWithStatus | src/snapshot.py:483-504 | the slot found is the first card with the status; none exactly when no card has it |
| Transitions.PerformDraw | src/snapshot.py:217-223 | the drawn card joins the end of the player's hand and the deck shrinks by one; the card total is unchanged |
| Transitions.MoveToPile | src/snapshot.py:514-524 | a missing order fails with `CardNotFound`; otherwise the hand is the old hand with that card taken out, the other hands are unchanged, and the card found is appended to the chosen pile |
| Transitions.PerformPlay | src/snapshot.py:225-234 | a play succeeds exactly when the hand holds the card; only hands and play pile change |
| Transitions.PerformBoom | src/snapshot.py:333-339 | a boom succeeds exactly when the hand holds the card; it costs one boom token and adds the card to the discard pile |
| Transitions.PendingDiscards | src/snapshot.py:256-268 | the pending list holds exactly the orders of trash-noted and `UNSPECIFIED` cards |
| Transitions.PendingIndex | src/snapshot.py:270-273 | the index is the first position of the order in the pending list, or -1 when absent |
| Transitions.MarkUsefulMarksFirst | src/snapshot.py:305-321 | marking sets exactly the unprotected cards with fewer than `n` unprotected cards before them to `USEFUL`, a card already `USEFUL` included, and leaves every other card, protected ones included, unchanged |
| Transitions.MarkedCountIsMin | src/snapshot.py:306-321 | the marks reach `min(n, unprotected cards)` slots, none when `n <= 0` |
| Transitions.PerformDiscard | src/snapshot.py:236-331 | fails with `CardNotFound` exactly when the card is missing and with `PossiblyUseful` exactly when its status is neither trash nor `UNSPECIFIED`; on success it earns one clue token and appends the card to the discard pile. With two or more players the discarder's hand is the old hand with that card taken out, and the pile entry is the card found. Every hand other than the discarder's and the next player's is unchanged |
| Transitions.DiscardPending | src/snapshot.py:256-331 | an accepted discard adds one clue token and appends the discarded card to the pile; play pile and counts are untouched. With two or more players the discarder's hand is the old hand with the card taken out and the pile entry is that card; hands other than the discarder's and the next player's are unchanged |
| Transitions.DiscardMarksNext | src/snapshot.py:270-321 | a discard marks `USEFUL` exactly the first `min(num_cards_to_save, unprotected cards)` unprotected cards of the next player's hand, slot by slot, and leaves protected cards alone; the first pending card with no known playable card saves nothing |
| Transitions.PerformMove | src/snapshot.py:199-215 | a play, discard or clue succeeds exactly when its `_perform_*` method does, and keeps the card total and the frame |
| Transitions.PerformAction | src/snapshot.py:199-215 | a draw always succeeds; once the deck is empty every other action counts a final turn; the card total is preserved |
| Transitions.NextSnapshot | src/snapshot.py:70-87 | the next snapshot appends the action to the history and resets deck count, final turns and start player to their defaults |
| ClueEngine.ApplyMarks | src/snapshot.py:348-461 | status notes apply exactly when every noted order is in the hand; only notes of the noted cards change |
| ClueEngine.ClueNotes | src/snapshot.py:341-466 | a clue changes only notes, and only on touched cards; it fails with `CardNotFound` or `IndexOutOfRange` |
| ClueEngine.ClueNotesOk | src/snapshot.py:341-466 | a clue whose touched cards are all in the hand, with a colour in range, always succeeds |
| ClueEngine.PerformClue | src/snapshot.py:341-466 | a clue costs one clue token and rewrites only notes of the receiver's touched cards |
| ClueEngine.BlackClueOnlySpends | src/snapshot.py:462-466 | a black colour clue spends a token and changes nothing else |
| ClueEngine.NumLeftOnesBySets | src/snapshot.py:359-368 | the 1s still missing are the suits minus those with a 1 played and those with a 1 already noted |
| ClueEngine.Rank1ClueOutcome | src/snapshot.py:357-381 | newest first, touched 1s below the missing count become playable, the next one trash, older ones unchanged; with none missing all become trash |
| ClueEngine.Rank1Marks | src/snapshot.py:370-381 | the rank-1 mark list covers a prefix of the sorted orders with exactly the playable/trash pattern of the source |
| ClueEngine.NextMissingRank | src/snapshot.py:385-400 | the rank found is the lowest of 1..4 that is neither played nor noted, or "none" |
| ClueEngine.ColourClueOutcome | src/snapshot.py:384-416 | with no missing rank all touched cards become trash; otherwise the newest is finessed towards the missing rank and the others are good-touch saved |
| ClueEngine.PlayFinesses | src/snapshot.py:435-460 | the finesses of a rank play clue are exactly the suits where the rank is not yet played and not yet noted |
| ClueEngine.RankSaveOutcome | src/snapshot.py:424-432 | a save clue notes only the pending discard slot as `CLUED_SAVED` |
| ClueEngine.RankPlayOutcome | src/snapshot.py:434-460 | a rank play clue finesses its newest card with all candidate suits and saves the others |
| ValidActions.KnownValues | src/snapshot.py:133-139 | the values listed are exactly the known ranks or suits in the hand |
| ValidActions.TouchedOrders | src/snapshot.py:150-168 | a clue touches exactly the orders of cards with the hinted value |
| ValidActions.CluesFor | src/snapshot.py:133-171 | the clues for one receiver are exactly one clue per known rank and per known suit, with its touched orders |
| ValidActions.ClueActions | src/snapshot.py:124-171 | the clue actions are exactly those towards a player other than the giver and the viewer |
| ValidActions.GetValidActions | src/snapshot.py:89-172 | no action once the game has ended; otherwise a play per card comes first, and every action belongs to the player |
| ValidActions.ValidActionsExact | src/snapshot.py:89-172 | an action is listed exactly when it is a play, a discard while tokens are not full, or a clue while tokens remain |
| ValidActions.ValidActionsDistinct | src/snapshot.py:89-172 | the list of valid actions has no repeats |
| Games.CountDiscarded | src/game.py:623-629 | the count is positive exactly when the discard pile holds such a card |
| Games.SeenInHands | src/game.py:615-621 | a card is seen exactly when some hand holds a card of that rank and suit |
| Games.SeenIffCounted | src/game.py:615-621 | seen in hands exactly when the count over all hands is positive |
| Games.StacksInRange | src/game.py:759-764 | each stack is between 0 and 5 and is 0 or the rank of a played card of that suit |
| Games.IsTrash | src/game.py:652-719 | an unknown card is never trash; a rank-only card is trash when every possible suit is past it; a suit-only card when the suit is complete, blocked, or all its remaining ranks are visible; a known card when played or a lower rank is gone |
| Games.PlayedCardIsTrash | src/game.py:705-707 | a known card of an identity already played is trash |
| Games.IsPlayable | src/game.py:766-806 | playable implies not trash; a known card is playable exactly when it is the next of its stack; an unclued card only through a finesse; a clued card only through a play clue |
| Games.IsCritical | src/game.py:741-757 | critical implies not trash; a 5 is critical when not trash; a 1 never; other ranks when a copy is discarded |
| Games.CriticalNon5Cards | src/game.py:571-613 | the result holds exactly the discarded cards that are critical and not 5s |
| Games.CurrentDiscardSlot | src/game.py:646-650 | the slot is the oldest unclued card; none exactly when every card is clued |
| Games.DoubleCluedCards | src/game.py:638-644 | the result holds exactly the cards touched again that were already clued |
| Games.WillNotDiscard | src/game.py:631-636 | true exactly when some card of the hand has a play clue |
| Games.CurrentPlayerIndex | src/game.py:564-569 | the current player is a valid seat |
| Games.NextPlayer | src/game.py:564-569 | a draw keeps the current player and every other action passes the turn to the next seat |
| Games.RemoveCardFromHand | src/game.py:721-739 | a missing order returns no card and leaves the game; otherwise exactly that card leaves that hand |
| GameEvents.HandleDraw | src/game.py:308-318 | the drawn card joins the end of the hand and the draw is recorded |
| GameEvents.HandleMove | src/game.py:320-359 | a missing card raises; otherwise it leaves the hand, is revealed and goes to its pile, a discard earns and a boom costs a token |
| GameEvents.PutOnPile | src/game.py:320-359 | the revealed card joins the right pile and only the matching token changes |
| GameEvents.RankOneOutcome | src/game.py:366-382 | touched cards of a rank-1 clue get a play clue and untouched ones the negative information |
| GameEvents.PromoteChanges | src/game.py:412-442 | a double-clued card that becomes playable gets an extra play clue; every other card is unchanged |
| GameEvents.NewlyPlayableWereDouble | src/game.py:412-442 | every card promoted by a save clue was touched again and was not yet playable |
| GameEvents.SaveOutcome | src/game.py:387-461 | a save clue gives untouched cards the negative information and keeps every card's identity |
| GameEvents.SaveClueMarks | src/game.py:387-461 | in a save clue a touched card gets a play clue if newly playable and a save clue otherwise |
| GameEvents.SaveAllMarks | src/game.py:444-461 | with nothing newly playable every touched card gets a save clue |
| GameEvents.PlayOutcome | src/game.py:463-500 | a play clue with no touched card and nothing newly playable raises; otherwise untouched cards get negative information |
| GameEvents.PlayClueMarks | src/game.py:463-500 | in a play clue the focus gets a play clue and other touched cards a save clue |
| GameEvents.ReceiveClue | src/game.py:361-500 | a clue fails only when it touches nothing; untouched cards get negative information |
| GameEvents.HandleClue | src/game.py:361-500 | a clue costs one token, records the clue and changes only the receiver's hand |
| GameEvents.HandleAction | src/game.py:71-90 | each action is recorded once; tokens move as the action demands; the handlers fail only on a missing card or an empty clue |
| SnapshotChain.DealSize | src/game.py:312-318 | the cards dealt per player: five for two or three players, four for four or five, three for six, no entry otherwise |
| SnapshotChain.DealComplete | src/game.py:312-318 | the deal is complete when the action count is the table size times the hand size; a table size with no entry raises |
| SnapshotChain.InitialSnapshot | src/game.py:66-69 | the initial snapshot holds the game's hands, full tokens, empty piles and no actions |
| SnapshotChain.HandleTracked | src/game.py:71-94 | the game is what the handler returns; a draw adds at most the initial snapshot; any other action appends exactly one snapshot once a history exists, built from the action as the handler recorded it (the held card in place of the card shown, the clue with its final classification), and the latest action history grows by that recorded action; a handler failure fails the whole step |
| SnapshotChain.RecordedStep | src/game.py:319-499 | the action a handler records is the one received, except that a play or discard carries the held card with the shown identity and a clue carries its final classification |
| SnapshotChain.DrawSkipsHistory | src/game.py:91-94 | a draw that does not complete the deal adds the card to the game's hand and leaves the history unchanged |
| SnapshotChain.DiscardMissingFails | src/snapshot.py:236-242 | a discard whose card is missing from the latest snapshot's hand fails with `CardNotFound` |
| SnapshotChain.DiscardOfLaterDrawFails | src/game.py:91-94 | a card drawn after the latest deep-copied snapshot cannot be discarded: the game accepts the discard, and the history step fails |
| SnapshotChain.FirstDiscardFails | src/game.py:66-69 | the first discard after the deal fails: the initial snapshot shares the game's hands, and the handler has already removed the card |
| SnapshotChain.HandleTrackedFixed | src/game.py:71-94 | with draws joining the latest snapshot, the game is what the handler returns, and any other action appends exactly one snapshot, built from the recorded action, once a history exists |
| SnapshotChain.FixedKeepsSynced | src/game.py:308-310 | with draws joining the latest snapshot, the latest snapshot keeps holding the game's card orders, hand by hand, after every action |
| SnapshotChain.FixedMoveFindsCard | src/snapshot.py:236-242 | with the hands in step, a play or discard of a card in the player's hand is accepted by the game and never fails for a missing card; only a discard can fail, and only as possibly useful |
| GamePolicy.PriorityClue | src/game.py:522-539 | with full tokens the clue goes to the first rank of 1, 5, 2, 3, 4 some other player holds |
| GamePolicy.PriorityIndex | src/game.py:524 | the rank chosen is the first in priority order that another player holds |
| GamePolicy.FirstTrash | src/game.py:541-548 | the first trash card, none exactly when no card is trash |
| GamePolicy.TryDiscard | src/game.py:521-562 | a rank clue only with full tokens; otherwise the first trash, else the oldest unclued card, else play the newest card; an empty hand raises |
| GamePolicy.TryDiscardCluesOnesFirst | src/game.py:522-539 | with full tokens and some other player holding a 1, the clue is a rank-1 clue |
| GamePolicy.FirstEndangered | src/game.py:135-147 | the first other player whose discard slot is critical and who has no play clue |
| GamePolicy.NewestPlayable | src/game.py:179-190 | the newest playable card, none exactly when none is playable |
| GamePolicy.ClueForCard | src/game.py:213-289 | a card with a play clue is skipped; a card already clued gets the other clue type |
| GamePolicy.PlayClueSearch | src/game.py:199-289 | any clue found is given by the bot to another player |
| GamePolicy.PreActionIntentionCheck | src/game.py:96-292 | another viewer or player gives no action; otherwise exactly one action of the bot, a clue only with tokens left and to another player, a play or discard of its own card |
| GamePolicy.SaveComesFirst | src/game.py:135-160 | with tokens left, the first endangered player gets a rank clue on the discard slot |
| GamePolicy.PlayBeforeClue | src/game.py:179-190 | with no one endangered, the newest playable card is played |
| Conventions.CheckConvention | src/conventions.py:15-67 | the check is done on the recalculated snapshot |
| Conventions.MoveVerdict | src/conventions.py:20-38 | a play passes exactly when the card is known playable and useful; a discard exactly when it is noted trash, `UNSPECIFIED` or not useful |
| Conventions.ClueVerdictReceiver | src/conventions.py:40-46 | a clue touching no card passes whatever its receiver, since the receiver's hand is only looked up per touched card; a clue touching a card of a seat outside the table fails |
| Conventions.CheckClueIsSound | src/conventions.py:40-67 | a clue passes exactly when no touched known card is a repeat, already played, or already known |
| Conventions.CheckTouchedSound | src/conventions.py:48-67 | the loop over touched cards passes exactly when the remaining touched cards are sound |
| Conventions.CheckConventionStable | src/conventions.py:20 | checking a recalculated snapshot gives the same verdict |
| Conventions.KeepSound | src/conventions.py:77-81 | the kept actions are exactly the valid actions that pass the check |
| Conventions.KeepSoundInOrder | src/conventions.py:77-81 | the kept actions keep the order they were listed in: each comes from a later position than the one before |
| Conventions.SortByScore | src/conventions.py:90-92 | the result is a permutation of its input with scores in descending order |
| Conventions.Evaluate | src/conventions.py:70-92 | the scored list is sorted best first and holds exactly the kept actions; with no search level left all scores are 0 |
| Conventions.SoundMoveSucceeds | src/conventions.py:77-88 | every kept action can be applied to produce the next snapshot |
| Conventions.KeptSearchable | src/conventions.py:77-88 | every kept action can be scored |
| Conventions.EvaluateAction | src/conventions.py:95-139 | with no search level left the score is 0 |
| Conventions.OneLevelScores | src/conventions.py:113-139 | at search level 1 the score is 0 or -1 |
| Client.PlayClueMakesPlayable | src/game_state.py:35-36 | a card whose newest clue is a play clue is playable |
| Client.OnlyLastClueMatters | src/game_state.py:35-36 | an unknown card whose newest clue is not a play clue is not playable |
| Client.EarlierCluesIgnored | src/game_state.py:35-39 | playability depends on the newest clue only |
| Client.UnknownUncluedNotPlayable | src/game_state.py:31-34 | an unclued card without a finesse colour is not playable |
| Client.RemoveCardFromHand | src/hanabi_client.py:662-680 | a missing order returns no card and the same state; otherwise exactly that card leaves that hand |
| Client.NewestDoubleIsLastListed | src/hanabi_client.py:373-391 | the newest double-clued card is the last one `double_clued_cards` lists |
| Client.ClientClueHand | src/hanabi_client.py:329-434 | a clue fails only when it is a play clue that touches nothing; identities are kept and untouched cards get negative information |
| Client.ClientRankOneMarks | src/hanabi_client.py:344-355 | every card touched by a rank-1 clue gets a play clue |
| Client.ClientSaveMarks | src/hanabi_client.py:357-403 | in a save clue the newest double-clued playable card gets a play clue and other touched cards a save clue |
| Client.ClientPlayMarks | src/hanabi_client.py:405-434 | in a play clue only the focus gets a play clue |
| Client.ClientFocusOnNewlyPlayable | src/hanabi_client.py:405-420 | the focus is the newest double-clued card when it becomes playable |
| Client.ClientFocusDefault | src/hanabi_client.py:405-434 | otherwise the focus is the newest touched order |
| Client.ClientDraw | src/hanabi_client.py:294-300 | a drawn card joins the end of the hand |
| Client.ClientPlay | src/hanabi_client.py:302-312 | the card leaves the hand and its stack is set to its rank |
| Client.ClientDiscard | src/hanabi_client.py:314-327 | the card leaves the hand and joins the discard pile with its identity; a failed play earns no token |
| Client.ClientClue | src/hanabi_client.py:329-434 | a clue costs one token and only the receiver's hand changes |
| Client.HandleEvent | src/hanabi_client.py:288-444 | each event changes the state as its branch does; only an empty play clue fails |
| Client.ClueCostsOneToken | src/hanabi_client.py:329-434 | a clue touching a card always succeeds, costs one token and leaves other hands and piles unchanged |
| Client.HandleEventOnGameState | src/hanabi_client.py:355-359 | on a `GameState` a clue other than rank 1 fails for the missing methods |
| Client.FiveSaveRaisesOnGameState | src/hanabi_client.py:355-359 | a rank-5 clue fails on `GameState` but succeeds on the corrected state |

## Left out

- `decide_action` prints and calls the search. Only the functions it calls are modelled.
- SnapshotChain.HandleTracked and SnapshotChain.HandleTrackedFixed: require the acting player's
  seat to be in range for a clue too. The clue step of the source does not read that seat.
- Websocket I/O, JSON parsing, chat, the LLM client, `printf` and `dump` are left out. A server
  event enters the model as an `Event` value.
- The code uses several definitions that `src/card.py` and `src/constants.py` do not contain:
  - the card fields `status` and `finesses`;
  - `Card.add_finesse`, `Card.add_negative_info` and `Card.add_negative_suit`;
  - the `Status` enum and the table `MAX_CARDS_PER_RANK`;
  - the table `MAX_CARDS_PER_PLAYER` (imported at src/game.py:14). The model uses the standard
    hand sizes in `SnapshotChain.DealSize`: five cards for two or three players, four for four
    or five, three for six. Another table size fails as the missing key would;
  - `ACTION.DRAW` and the `.value` accessor on `ACTION` members. `src/constants.py` defines
    `ACTION` with plain integers and no `DRAW`. The model uses the `Action` constructors
    (`Draw`, `Play`, `Discard`, `GiveClue`) in their place;
  - `Color.BLACK` and `Color.UNSPECIFIED`. The model uses `BlackColor` (5, one past the five
    standard suits) and `Unknown` (-1);
  - `card.status in Status.USEFUL` (src/snapshot.py:503). With the enum missing, the model reads
    it as `status == USEFUL` (`Snapshots.PendingDiscardSlot`).

  These definitions are not part of this model, and each is modelled from how the code uses it.
  Copies per rank follow the standard deck: three 1s, two each of 2, 3 and 4, and one 5.
  `Cards.AddNegativeInfo` and `Cards.AddNegativeSuit` only record the excluded value. Any further
  deduction those methods make is not modelled.
- `Game` and the client hard-code five suits (`range(5)`, `[0] * 5`). The model does the same
  with `StandardSuits`. `Snapshot` keeps `num_suits` as a field.
- Conventions.SortByScore: does not state that Python's `sorted` is stable. It states only the
  descending order and the permutation.
- GameEvents.SaveClueMarks, GameEvents.PlayClueMarks and Client.ClientSaveMarks: assume the
  orders in a hand are distinct, as the server deals them.
- ClueEngine.ColourClueOutcome, ClueEngine.Rank1ClueOutcome and ClueEngine.RankPlayOutcome: assume
  the touched orders of the clue are distinct, as the server sends them. They also take the
  receiver as a seat `0 <= receiver < numPlayers`, not a negative Python index.
  ClueEngine.ColourClueOutcome also takes the colour as `0 <= hint_value`. A negative colour would
  index the tables from the end. `ClueEngine.PerformClue` handles a negative colour: it reads the
  tables through a Python-style index. It still takes the receiver as a seat
  `0 <= receiver < numPlayers`, and so does `Transitions.WellFormed`.
- Transitions.DiscardMarksNext: needs two or more players. With one player the discarding hand
  is also the next hand, and the discarded card leaves it after the marks.
- GamePolicy.PreActionIntentionCheck: requires the bot's own seat to be in range. The source
  indexes `player_hands[our_player_index]` without a check.
- Client.HandleEvent: requires the server's indices to be in range (`WellFormedEvent`). The
  source indexes lists with them unchecked.
- Client.ClientClueHand and Client.ClientSaveMarks: the tests in `tests/test_hanabi_client.py`
  (lines 123-124 and 177-178) expect a card to carry its rank and suit after rank clues. They
  expect clue handling to deduce the card's identity. The code only records the clue, negative
  information and a save or play clue. The model follows the code.
- `play_stacks` is the function `Games.Stacks`. Its properties are stated in
  `Games.StacksInRange`.
- `Snapshots.IsEndStatus` (`is_end_status`, src/snapshot.py:174-184) and `Snapshots.IsUseful`
  (`is_useful`, src/snapshot.py:596-618) are predicates. Their meaning is their definition, and
  the properties above use them.
- Transitions.PerformPlay and Transitions.PerformBoom: fail with `CardNotFound` when the card is
  not in the hand. In that case `_perform_play` and `_perform_boom` (src/snapshot.py:225-228 and
  333-337) append `None` to the pile, and the boom still spends its token. The model does not
  carry a `None` card in a pile. The same holds for the history step of `handle_action`
  (SnapshotChain.HandleTracked). It plays a card the latest snapshot never saw (see "Findings"),
  and there the source appends `None` where the model fails.
- `viewer_index` is accepted but unused by the `_perform_*` methods. The model does not carry it.
- Conventions.EvaluateAction: states the score only for search levels 0 and 1. Deeper searches
  return a sum of scores with no closed form.

## Findings

| source | as written | input that shows it | evidently intended | confidence | as-written member | corrected member |
|---|---|---|---|---|---|---|
| src/hanabi_client.py:355-359 | the client's state is a `GameState` (src/hanabi_client.py:221), which has no `current_discard_slot` or `double_clued_cards`, so any clue other than rank 1 raises `AttributeError` | a rank-5 clue event `ClueEvent(1, 5, 0, target, 0, [order])` | the state answers both queries as `Game` does, and the clue is classified as a save or play clue | not executed | Client.HandleEventOnGameState | Client.HandleEvent |
| src/game.py:91-94 | the snapshot history never receives draws (the line that would add them, src/game.py:309, is commented out). The initial snapshot shares the game's hand lists (src/snapshot.py:61), so the handlers' removals reach it before `next_snapshot` runs. `_perform_discard` then reads `.status` of `None` (src/snapshot.py:240-242) and raises `AttributeError`. SnapshotChain.FirstDiscardFails and SnapshotChain.DiscardOfLaterDrawFails prove both cases; SnapshotChain.FixedKeepsSynced and SnapshotChain.FixedMoveFindsCard prove the corrected history keeps the hands in step | the first discard after the deal; or a discard, after at least one more snapshot, of a card drawn since that snapshot | every snapshot holds the game's hands: draws join the latest snapshot, and the initial snapshot is a copy | not executed | SnapshotChain.HandleTracked | SnapshotChain.HandleTrackedFixed |
