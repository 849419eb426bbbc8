# RegExkcd match engine in Dafny

RegExkcd is a two-player card game played in the browser. Each card carries
a regular-expression fragment (its *attack*) and a target string (its *dna*).
A match alternates between two phases:

- In the **changing** phase a player may swap a hand card with a card in play.
  A replacement card is then drawn into the hand.
- In the **matching** phase a player selects own cards in play. Their
  fragments, concatenated in selection order, form a pattern. The player
  attacks an opponent card with that pattern and deals damage equal to the
  longest match.

This project models the engine's bookkeeping as pure functions over one
immutable `Game` record. The bookkeeping covers the turn and phase rotation,
the input gate, swap flags, the swap transaction, the card registry, the
attack selection and the attack itself. The card entity's own state changes
are modelled the same way. The two source files modelled are
`RegExkcd/src/main.ts` (the `GameState` class) and `RegExkcd/src/card.ts`
(the `Card` class).

Layout:

- `wrappers.dfy` (`Wrappers`): `Option` and `Result`.
- `seqs.dfy` (`Seqs`): `IndexOf`, with the meaning of JavaScript's `indexOf`.
- `text.dfy` (`Text`): first-occurrence search and removal, as done by `String.replace` with a string pattern.
- `cards.dfy` (`Cards`): the card record, id issuance and the card's own operations.
- `patterns.dfy` (`Patterns`): the longest-match rule. The regular-expression engine is a parameter. A literal matcher is given as one instance.
- `engine.dfy` (`Engine`): the game state, the registry, the input handlers, the swap and the attack.
- `turns.dfy` (`Turns`): repeated turn rotation.
- `invariants.dfy` (`Invariants`): proofs that every action keeps the representation invariant `Valid`.

Representation. The source shares card objects between the zones, the
selection list and the `id_to_card` registry. Here cards live only in
`registry: map<int, Card>`. The zones and `selected` hold ids. A card's id
identifies its object, so writing `registry[id]` stands for mutating that
object. `Valid(g)` states what this encoding needs:

- every registry entry is stored under its own id;
- every id was issued by the card counter;
- every zone holds registered ids;
- the selection list is duplicate-free;
- a card's `selected` flag holds exactly when the card is in the list;
- the card at list position `i` carries the label `i + 1`.

`SelectCard` requires `Valid`, and `Invariants.SelectCardPreservesValid`
proves that every accepted action keeps it. The module-level
`input_disable` counter and the static `Card.card_count` are fields of the
state (`inputDisable`, `cardCount`).

## Model

| member | source | states |
|---|---|---|
| `Engine.OppositePlayer` | RegExkcd/src/main.ts:18-20 | the opposite of a player is never the player itself, and it is a player index exactly when its argument is |
| `Engine.OppositeInvolution` | RegExkcd/src/main.ts:18-20 | taking the opposite twice gives back the original player |
| `Engine.ChangePhase` | RegExkcd/src/main.ts:344-352 | changing the phase always yields the other phase |
| `Engine.ChangePhaseTwice` | RegExkcd/src/main.ts:344-352 | changing the phase twice is the identity |
| `Engine.ChangePlayer` | RegExkcd/src/main.ts:325-337 | the half-round counter rises by exactly one; the phase flips exactly when the new count is even; the player flips exactly when the new count is not a multiple of four; nothing else changes |
| `Turns.ChangePlayerClosedForm` | RegExkcd/src/main.ts:325-337 | after k rotations from half round n, the phase has flipped once per even number in (n, n+k] and the player once per number in (n, n+k] that is not a multiple of four |
| `Turns.ChangePlayerCompose` | RegExkcd/src/main.ts:325-337 | a rotations followed by b rotations equal a+b rotations |
| `Turns.FourConsecutive` | RegExkcd/src/main.ts:328-334 | any four consecutive half rounds contain two even counts and three counts that are not multiples of four |
| `Turns.FourCalls` | RegExkcd/src/main.ts:325-337 | four rotations keep the phase and hand the turn to the other player |
| `Turns.EightCalls` | RegExkcd/src/main.ts:325-337 | from any state, eight rotations restore both the phase and the player |
| `Turns.OpeningRotation` | RegExkcd/src/main.ts:325-337 | from half round 0, first player and the changing phase, the next eight half rounds follow the phase/player table, ending back at the first player in the changing phase |
| `Engine.AddCard` | RegExkcd/src/main.ts:139-141 | the registry gains exactly the card's id, mapped to the card, and every other entry is kept |
| `Engine.GetCard` | RegExkcd/src/main.ts:143-148 | a lookup succeeds exactly for registered ids and yields the registered card |
| `Engine.SelectCard` | RegExkcd/src/main.ts:151-162 | input that does not come from the scripted opponent is ignored while the gate is held or the opponent is thinking; otherwise the click is handled by `SelectWhileChanging` in the changing phase and by `SelectWhileMatching` in the matching phase; an accepted action never shrinks the registry, never changes a card's id, pattern or target, and leaves the gate as it was |
| `Engine.SelectedForSwap` | RegExkcd/src/main.ts:167-171 | reports no card exactly when no card of the hand is flagged for a swap; a reported card is in the hand and flagged |
| `Engine.SelectWhileChanging` | RegExkcd/src/main.ts:164-199 | a click on the opponent's side is ignored while a hand card is flagged, and otherwise passes the turn with one rotation; an own in-play card with no flagged hand card does nothing, and with a flagged hand card starts the swap of the two (`SwapCards`); an own hand card toggles the swap flag; an unknown id on the own side is a fault |
| `Engine.ToggleSwapFlag` | RegExkcd/src/main.ts:188-198 | clicking the flagged card clears only its flag; clicking an unflagged card, wherever it sits, leaves no card of the current player's hand flagged except the clicked card itself; at most one flagged card stays at most one; the clicked card's flag is always inverted; cards outside the current hand other than the clicked one are untouched; only swap flags change |
| `Engine.ClearSwapFlags` | RegExkcd/src/main.ts:193-195 | every registered card among the given ids loses its swap flag; every other entry and the set of registered ids are unchanged |
| `Engine.BeginSwap` | RegExkcd/src/main.ts:201-205 | the swap takes the input gate (counter plus one) and clears both cards' swap flags; every other card and every other field is unchanged |
| `Engine.Exchange` | RegExkcd/src/main.ts:247-252 | the hand card takes the in-play card's former index and vice versa, the card now in play is marked `InPlay` with hover 0, and the opponent's zones are untouched |
| `Engine.FinishSwap` | RegExkcd/src/main.ts:277-280 | the card sent back is replaced by a drawn card when there is one, the turn rotates exactly once (half round, phase and player are those `ChangePlayer` gives), the gate is released, and no existing registry entry changes; the only new entry is the card built from the drawn entry (next id, `InHand`, unselected), and nothing is added when the deck is empty; the players' records and the opponent-thinking flag are unchanged |
| `Engine.CompleteSwap` | RegExkcd/src/main.ts:239-281 | the completion callback faults exactly when a card is missing from its zone; otherwise the slots are exchanged as described by `SwappedSlots`, the card moved into play becomes `InPlay` with hover 0, every other registered card is unchanged (so the card sent back keeps its state), the turn rotates once to the phase and player `ChangePlayer` gives, the gate counter drops by one, the only new registry entry is the drawn card (next id, drawn pattern and target, `InHand`, unselected), and the players' records and the opponent-thinking flag are unchanged |
| `Engine.SwapCards` | RegExkcd/src/main.ts:201-282 | as one transaction: both swap flags end false, the slots are exchanged, the moved card is `InPlay` with hover 0, the card sent back changes only its swap flag (it keeps `InPlay`), every other card is unchanged, the gate counter is back to its value before the swap, the turn rotates exactly once to the phase and player `ChangePlayer` gives, the only new registry entry is the drawn card (next id, drawn pattern and target, `InHand`, unselected), and the players' records and the opponent-thinking flag are unchanged |
| `Engine.ChangeCard` | RegExkcd/src/main.ts:289 | the incoming card takes the slot of the outgoing card and the hand keeps its size |
| `Engine.DiscardAndPickNew` | RegExkcd/src/main.ts:284-299 | with an empty deck nothing changes; otherwise a card with the next id, the drawn pattern and target, and no selection takes the old card's hand slot and is registered; no registry entry is removed or altered |
| `Engine.DrawnIdIsFresh` | RegExkcd/src/card.ts:75 | under the invariant the id a drawn card receives is not yet in the registry |
| `Engine.Pattern` | RegExkcd/src/main.ts:354-360 | the composite pattern of an empty selection is empty, and otherwise begins with the first selected card's pattern |
| `Engine.PatternAppend` | RegExkcd/src/main.ts:354-360 | appending a card to the selection appends its pattern to the composite pattern |
| `Engine.PatternFrame` | RegExkcd/src/main.ts:354-360 | the composite pattern depends only on the selected cards' own patterns |
| `Engine.GetRegexString` | RegExkcd/src/main.ts:354-360 | the loop yields the in-order concatenation of the selected cards' patterns |
| `Engine.SelectWhileMatching` | RegExkcd/src/main.ts:301-323 | an unknown id is a fault; a card not in state `InPlay` is ignored; an own `InPlay` card toggles its selection; an opponent's `InPlay` card is attacked and then the turn rotates once |
| `Engine.ToggleSelection` | RegExkcd/src/main.ts:303-316 | an unselected card is appended and labelled with the new length of the list; a selected card is removed and deselected only when it is the last one; otherwise nothing changes; no other card changes |
| `Engine.SelectExtendsPattern` | RegExkcd/src/main.ts:305-307 | selecting a card extends the composite pattern by that card's pattern |
| `Engine.DeselectShortensPattern` | RegExkcd/src/main.ts:308-313 | removing the last selected card takes its pattern off the end of the composite pattern |
| `Engine.Attack` | RegExkcd/src/main.ts:362-385 | the damage is the longest match's length and is recorded only for the opponent of the current player; afterwards the selection is empty and every previously selected card is deselected with an empty label; no card's target string changes |
| `Engine.DealDamage` | RegExkcd/src/main.ts:377 | the damage amount is appended to the player's record of hits |
| `Patterns.LongestAfter` | RegExkcd/src/main.ts:367-374 | the scan returns the starting best or one of the matches, and it is at least as long as every match |
| `Patterns.LongestMatch` | RegExkcd/src/main.ts:367-374 | the kept match is empty or one of the matches, and no match is longer |
| `Patterns.Damage` | RegExkcd/src/main.ts:367-377 | the damage bounds every match's length, equals the length of some match unless it is 0, and is 0 when there are no matches |
| `Patterns.LiteralMatchesFrom` | RegExkcd/src/main.ts:366 | a literal global match returns only copies of the pattern, and it is empty exactly when the pattern does not occur from the start index on |
| `Patterns.LiteralMatches` | RegExkcd/src/main.ts:366 | every literal match equals the pattern; an empty pattern matches once per position |
| `Patterns.LiteralDamage` | RegExkcd/src/main.ts:366-377 | with a literal pattern the damage is the pattern's length if it occurs in the target and 0 otherwise |
| `Patterns.ExampleAttack` | RegExkcd/src/main.ts:362-377 | the cards "a" and "b" against the target "xaybzaabw" deal 2 |
| `Invariants.FrameValid` | RegExkcd/src/main.ts:139-141 | a state whose registry only gained fresh unselected cards and kept every selection field stays valid |
| `Invariants.ChangePlayerValid` | RegExkcd/src/main.ts:325-337 | rotation keeps the invariant |
| `Invariants.ToggleSwapFlagValid` | RegExkcd/src/main.ts:188-198 | toggling swap flags keeps the invariant |
| `Invariants.SelectValid` | RegExkcd/src/main.ts:305-307 | appending an unselected card keeps the list duplicate-free, and the new card's label is its position |
| `Invariants.DeselectValid` | RegExkcd/src/main.ts:308-313 | removing the last selected card takes it out of the list and leaves the other labels as they were |
| `Invariants.ToggleSelectionValid` | RegExkcd/src/main.ts:303-316 | selecting or deselecting keeps the list duplicate-free, the flags equal to membership and the labels equal to positions |
| `Invariants.AttackValid` | RegExkcd/src/main.ts:380-383 | after an attack the invariant holds with nothing selected |
| `Invariants.BeginSwapValid` | RegExkcd/src/main.ts:202-205 | taking the gate and clearing swap flags keeps the invariant |
| `Invariants.ExchangeValid` | RegExkcd/src/main.ts:247-252 | exchanging the two cards' slots keeps every zone registered |
| `Invariants.FinishSwapValid` | RegExkcd/src/main.ts:277-299 | drawing a replacement, rotating and releasing the gate keep the invariant, since the drawn card is registered as it enters the hand |
| `Invariants.SwapCardsValid` | RegExkcd/src/main.ts:201-299 | a completed swap keeps the invariant, including the drawn card's registration before it enters the hand |
| `Invariants.SelectCardPreservesValid` | RegExkcd/src/main.ts:151-162 | every accepted input keeps the invariant |
| `Invariants.GateHeldDuringSwap` | RegExkcd/src/main.ts:153-155 | while a swap is pending, a click that does not come from the scripted opponent changes nothing |
| `Seqs.IndexOf` | RegExkcd/src/main.ts:247-248 | the index is -1 exactly when the element is absent; otherwise it holds the element and no earlier slot does |
| `Seqs.IndexOfDistinct` | RegExkcd/src/main.ts:309 | in a duplicate-free list the index of an element is its position |
| `Cards.NewCard` | RegExkcd/src/card.ts:73-76 | a constructed card takes the counter's next value as its id and carries the given pattern and target; it starts in `InPlay` with hover 0, unselected and not flagged |
| `Cards.CardFromSpec` | RegExkcd/src/card.ts:7-9 | the card's pattern is the entry's `regex` and its target the entry's `password`; its id is the previous count plus one |
| `Cards.GenerateCards` | RegExkcd/src/card.ts:11-17 | n entries give n cards, in order, with strictly increasing ids all above the previous count; the counter advances by n |
| `Cards.Select` | RegExkcd/src/card.ts:129-132 | the card becomes selected with the given label, and nothing else changes |
| `Cards.Deselect` | RegExkcd/src/card.ts:134-137 | the card becomes unselected with an empty label, and nothing else changes |
| `Cards.SelectThenDeselect` | RegExkcd/src/card.ts:129-137 | selecting then deselecting an unselected card restores it exactly |
| `Cards.SelectForSwap` | RegExkcd/src/card.ts:170-179 | the flag ends equal to the argument; a call with the current value changes nothing |
| `Cards.ChangeState` | RegExkcd/src/card.ts:154-156 | the state becomes the given one unconditionally and nothing else changes |
| `Cards.Destroy` | RegExkcd/src/card.ts:139-143 | the card is in state `Destroyed` and nothing else changes |
| `Cards.DestroyedIsNotTerminal` | RegExkcd/src/card.ts:139-156 | a destroyed card can be put back into play by a state change |
| `Cards.RemoveDna` | RegExkcd/src/card.ts:145-152 | when the pattern occurs, the target loses exactly its first occurrence; otherwise the target is unchanged; the card is destroyed exactly when the new target is empty, unless it was already destroyed; no other field changes |
| `Text.FindFirst` | RegExkcd/src/card.ts:146 | the search returns -1 exactly when the pattern does not occur; otherwise it returns an occurrence with no earlier one |
| `Text.FindFrom` | RegExkcd/src/card.ts:146 | the search from an index finds the first occurrence at or after it, or -1 exactly when there is none |
| `Text.RemoveFirst` | RegExkcd/src/card.ts:146 | the text around the first occurrence is kept and the length drops by the pattern's length; without an occurrence the string is unchanged |
| `Text.RemoveFirstRestore` | RegExkcd/src/card.ts:146 | putting the removed occurrence back at its index restores the original target |
| `Cards.UpdateHover` | RegExkcd/src/card.ts:181-191 | one step up while the pointer is inside, one step down otherwise, and the result always lies in 0..20 whatever the prior value |
| `Cards.HoverSaturates` | RegExkcd/src/card.ts:186-190 | k ticks with the pointer inside raise the hover by k, capped at 20 |

## Left out

- Rendering and input plumbing are left out. This covers createjs stages, containers, sprites, texts and tweens, layout, `set_visible`, sprite frames, the shown pattern text, the ticker loop and mouse tracking. They are presentation only.
- `play_as_computer` is left out. It is called by `change_player` and lives in `computer.ts`, which is not part of this model. `Engine.ChangePlayer` performs no call, and re-entrant opponent input is not modelled.
- The regular-expression engine is a parameter, `Patterns.Matcher`. A pattern that `new RegExp` rejects throws an exception that the source does not catch; that path is not modelled.
- `player.ts` is not part of this model. Its operations appear only as far as `main.ts` uses them:
  - `pick_card_from_deck` becomes the input `draw` (`None` for an empty deck).
  - `deal_damage` becomes an entry in `PlayerState.hits`. Health and its clamping are not modelled.
  - `get_selected_for_swap` reports the first flagged hand card.
  - `Hand`, `InPlay` and `generate_players` are not modelled.
- `Engine.DiscardAndPickNew`: the drawn card enters the hand in state `InHand`. This assumes `Hand.change_card` marks it so, as the click handler's `InHand` test requires of hand cards. The drawn entry becomes a card through the card constructor.
- The `GameState` constructor is not modelled: the initial deal of 3 in-play and 4 hand cards per player, and the click wiring. Catalog draws (`draw_random_card_spec`), `utils.ts` randomness and the art index are not modelled either. Drawn entries are arbitrary inputs.
- `Engine.CompleteSwap`: the source's `indexOf` can return -1 when the clicked `InPlay` card is not in the in-play zone. This happens to a card sent back to the hand when the deck was empty, because it keeps state `InPlay`. The source then writes to index -1; the model reports `NotInZone` instead.
- `Engine.SelectCard`, `Engine.SelectWhileChanging` and `Engine.SelectWhileMatching`: where the source dereferences an `undefined` card and throws, the model returns `CardNotFound` with the state unchanged. This matches the source's effect, since nothing was mutated before the throw.
- `Engine.SwapCards`: the swap is atomic. The animation timing is left out; `BeginSwap`/`CompleteSwap` keep the gate's two steps.
- `Engine.CompleteSwap` and `Engine.SwapCards`: the drawn card's slot is stated only when the card sent back was not already in the hand. Disjointness of the zones is not proved.
- `Cards.UpdateHover`: the floating-point hit test is replaced by the boolean `inside`. The scale update is left out.
- `Cards.NewCard`: `selected_for_swap` starts `undefined` in the source and is modelled as `false`. The two behave the same in every test the code makes.
- `Engine.GetRegexString` and `Engine.Attack`: the source reads a card's pattern and target as `.regex` and `.password`, but the `Card` class declares no such fields and never assigns them; it stores them as `attack` and `dna`. As written, the pattern would concatenate the text "undefined" and the attack would throw on `undefined.match`. The model assumes the evident intent and reads `attack` and `dna`; the as-written failure is not modelled.
- `Patterns.Damage` and `Cards.RemoveDna`: string lengths count Unicode scalar values (Dafny's `char`), not the UTF-16 code units JavaScript's `length` counts. The damage therefore differs from the source for matches containing characters outside the Basic Multilingual Plane, which count 2 in the source and 1 here.
- Console logging is left out.

## Quirks of the source kept by the model

- `Destroyed` is not terminal: `change_state` assigns unconditionally (`Cards.DestroyedIsNotTerminal`). `select` and `select_for_swap` have no guard against destroyed cards either.
- `attack` never shortens the target string: the call that would do so is commented out, and `Engine.Attack` proves the targets unchanged.
- In a swap only the card moving into play gets a new state. The card sent back keeps `InPlay`, and it stays in the hand in that state when the deck is empty.
