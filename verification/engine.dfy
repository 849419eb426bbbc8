/** The match engine of RegExkcd/src/main.ts (`GameState`): whose turn it is,
    which phase is active, the card registry, the swap of a hand card with a
    card in play, the accumulation of an attack pattern and the attack.

    Cards are kept in `registry`, keyed by id; the zones and the attack
    selection hold ids. In the source these are shared object references, and
    a card's id identifies its object, so an update of `registry[id]` is the
    source's mutation of that card object. */
module Engine {
  import opened Wrappers
  import opened Seqs
  import opened Cards
  import opened Patterns

  /** A player index (`FIRST_PLAYER` or `SECOND_PLAYER`). */
  type Player = p: int | 0 <= p <= 1

  const FirstPlayer: Player := 0
  const SecondPlayer: Player := 1

  /** `oppositePlayer`. */
  function OppositePlayer(p: int): (q: int)
    ensures q != p
    ensures 0 <= p <= 1 <==> 0 <= q <= 1
  {
    1 - p
  }

  /** `oppositePlayer` is an involution. */
  lemma OppositeInvolution(p: int)
    ensures OppositePlayer(OppositePlayer(p)) == p
  {
  }

  /** `GamePhase`. */
  datatype Phase = Changing | Matching

  /** `change_phase`. */
  function ChangePhase(ph: Phase): (r: Phase)
    ensures r != ph
  {
    match ph
    case Changing => Matching
    case Matching => Changing
  }

  /** Changing the phase twice is the identity. */
  lemma ChangePhaseTwice(ph: Phase)
    ensures ChangePhase(ChangePhase(ph)) == ph
  {
  }

  /** One value per player: the source's arrays of length `PLAYER_COUNT`. */
  datatype PerPlayer<T> = PerPlayer(first: T, second: T) {
    function Get(p: Player): T {
      if p == FirstPlayer then first else second
    }

    function Set(p: Player, v: T): (r: PerPlayer<T>)
      ensures r.Get(p) == v
      ensures r.Get(OppositePlayer(p)) == Get(OppositePlayer(p))
    {
      if p == FirstPlayer then this.(first := v) else this.(second := v)
    }
  }

  /** What the engine does to a player's state: the amounts passed to
      `deal_damage`, in order. Health itself is computed by code outside
      this model. */
  datatype PlayerState = PlayerState(hits: seq<nat>)

  /** `deal_damage`. */
  function DealDamage(ps: PlayerState, amount: nat): (r: PlayerState)
    ensures |r.hits| == |ps.hits| + 1 && r.hits[|ps.hits|] == amount
    ensures r.hits[..|ps.hits|] == ps.hits
  {
    ps.(hits := ps.hits + [amount])
  }

  /** Why an action was abandoned: an id that is not in the registry (the
      source then dereferences `undefined`), or a card missing from the zone
      a swap expects it in. */
  datatype Fault = CardNotFound(id: int) | NotInZone(id: int)

  /** `GameState` together with the two module-level values it depends on:
      the input-disable counter and the global card counter. */
  datatype Game = Game(
    current: Player,
    phase: Phase,
    halfRound: nat,
    inputDisable: int,
    computerThinking: bool,
    hands: PerPlayer<seq<int>>,
    plays: PerPlayer<seq<int>>,
    players: PerPlayer<PlayerState>,
    selected: seq<int>,
    registry: map<int, Card>,
    cardCount: nat)

  // ----- Representation invariant -----

  /** Every registered card is stored under its own id, and every id was
      issued by the card counter. */
  predicate RegistryKeyed(g: Game) {
    forall k :: k in g.registry ==> g.registry[k].id == k && 0 < k <= g.cardCount
  }

  /** Every id in `zone` names a registered card. */
  predicate Registered(reg: map<int, Card>, zone: seq<int>) {
    forall i :: 0 <= i < |zone| ==> zone[i] in reg
  }

  /** Every zone holds registered cards only. */
  predicate ZonesRegistered(g: Game) {
    && Registered(g.registry, g.hands.first) && Registered(g.registry, g.hands.second)
    && Registered(g.registry, g.plays.first) && Registered(g.registry, g.plays.second)
  }

  /** The attack selection: duplicate-free, registered, a card's `selected`
      flag holds exactly when it is in the list, and the label of the card at
      position `i` is `i + 1`; unselected cards have an empty label. */
  predicate SelectionConsistent(g: Game) {
    && Registered(g.registry, g.selected)
    && Distinct(g.selected)
    && (forall k :: k in g.registry ==> (g.registry[k].selected <==> k in g.selected))
    && (forall i :: 0 <= i < |g.selected| ==>
          g.registry[g.selected[i]].selectionNumber == Some(i + 1))
    && (forall k :: k in g.registry && !g.registry[k].selected ==>
          g.registry[k].selectionNumber == None)
  }

  /** The invariant of every state the engine reaches. */
  predicate Valid(g: Game) {
    RegistryKeyed(g) && ZonesRegistered(g) && SelectionConsistent(g)
  }

  /** The registry only grows, and no card's id, pattern or target changes. */
  predicate Grows(g: Game, r: Game) {
    && g.registry.Keys <= r.registry.Keys
    && g.cardCount <= r.cardCount
    && forall k :: k in g.registry ==>
         && r.registry[k].id == g.registry[k].id
         && r.registry[k].attack == g.registry[k].attack
         && r.registry[k].dna == g.registry[k].dna
  }

  // ----- Registry -----

  /** `add_card`. */
  function AddCard(g: Game, c: Card): (r: Game)
    ensures r.registry.Keys == g.registry.Keys + {c.id}
    ensures r.registry[c.id] == c
    ensures forall k :: k in g.registry && k != c.id ==> r.registry[k] == g.registry[k]
    ensures r == g.(registry := r.registry)
  {
    g.(registry := g.registry[c.id := c])
  }

  /** `get_card`: `None` where the source returns `undefined`. */
  function GetCard(g: Game, id: int): (r: Option<Card>)
    ensures r.Some? <==> id in g.registry
    ensures r.Some? ==> r.value == g.registry[id]
  {
    if id in g.registry then Some(g.registry[id]) else None
  }

  /** Clears the swap flag of every registered card whose id is in `ids`. */
  function ClearSwapFlags(reg: map<int, Card>, ids: seq<int>): (r: map<int, Card>)
    ensures r.Keys == reg.Keys
    ensures forall k :: k in reg && k in ids ==> r[k] == SelectForSwap(reg[k], false)
    ensures forall k :: k in reg && k !in ids ==> r[k] == reg[k]
  {
    map k | k in reg :: if k in ids then SelectForSwap(reg[k], false) else reg[k]
  }

  // ----- Hand and in-play collections (player.ts) -----

  /** A registered card with its swap flag set. */
  predicate Flagged(reg: map<int, Card>, id: int) {
    id in reg && reg[id].selectedForSwap
  }

  /** At most one card of `zone` is flagged for a swap. */
  predicate AtMostOneFlagged(reg: map<int, Card>, zone: seq<int>) {
    forall i, j :: 0 <= i < |zone| && 0 <= j < |zone| && Flagged(reg, zone[i]) && Flagged(reg, zone[j]) ==>
      zone[i] == zone[j]
  }

  /** `Hand.get_selected_for_swap`: a card of the hand flagged for a swap, or
      `None` (the source's `null`) when there is none. */
  function SelectedForSwap(reg: map<int, Card>, hand: seq<int>): (r: Option<int>)
    ensures r.None? <==> forall i :: 0 <= i < |hand| ==> !Flagged(reg, hand[i])
    ensures r.Some? ==> r.value in hand && Flagged(reg, r.value)
  {
    if hand == [] then None
    else if Flagged(reg, hand[0]) then Some(hand[0])
    else
      var r := SelectedForSwap(reg, hand[1..]);
      assert forall i :: 1 <= i < |hand| ==> hand[i] == hand[1..][i - 1];
      r
  }

  /** `Hand.change_card`: the new card takes the old card's slot. */
  function ChangeCard(zone: seq<int>, outgoing: int, incoming: int): (r: seq<int>)
    ensures |r| == |zone|
    ensures outgoing in zone ==> r == zone[IndexOf(zone, outgoing) := incoming]
    ensures outgoing !in zone ==> r == zone
  {
    var i := IndexOf(zone, outgoing);
    if i < 0 then zone else zone[i := incoming]
  }

  // ----- Turn rotation -----

  /** `change_player` without the call into the scripted opponent: one more
      half round, the phase flips on every even half round, and the player
      flips on every half round that is not a multiple of four. */
  function ChangePlayer(g: Game): (r: Game)
    ensures r.halfRound == g.halfRound + 1
    ensures r.phase != g.phase <==> r.halfRound % 2 == 0
    ensures r.current != g.current <==> r.halfRound % 4 != 0
    ensures r == g.(halfRound := r.halfRound, phase := r.phase, current := r.current)
  {
    var n := g.halfRound + 1;
    var ph := if n % 2 == 0 then ChangePhase(g.phase) else g.phase;
    var p := OppositePlayer(g.current);
    var p := if n % 4 == 0 then OppositePlayer(p) else p;
    g.(halfRound := n, phase := ph, current := p)
  }

  /** Rotation reads only the turn fields: two states that agree on them
      rotate to the same phase and player. */
  lemma RotationIgnoresZones(g: Game, h: Game)
    requires g.halfRound == h.halfRound && g.phase == h.phase && g.current == h.current
    ensures ChangePlayer(g).phase == ChangePlayer(h).phase
    ensures ChangePlayer(g).current == ChangePlayer(h).current
  {
  }

  // ----- Input -----

  /** `select_card`: a click (or a decision of the scripted opponent, when
      `isComputer`) on the card `id` owned by `owner`. `draw` is what the
      owner's deck yields if a swap draws a replacement card; `matcher` is the
      regular expression engine used if the click attacks. */
  function SelectCard(g: Game, owner: Player, id: int, isComputer: bool,
                      draw: Option<CardSpec>, matcher: Matcher): (r: Result<Game, Fault>)
    requires Valid(g)
    ensures (g.computerThinking || g.inputDisable != 0) && !isComputer ==> r == Ok(g)
    ensures !((g.computerThinking || g.inputDisable != 0) && !isComputer) && g.phase == Changing ==>
              r == SelectWhileChanging(g, owner, id, draw)
    ensures !((g.computerThinking || g.inputDisable != 0) && !isComputer) && g.phase == Matching ==>
              r == SelectWhileMatching(g, owner, id, matcher)
    ensures r.Ok? ==> Grows(g, r.value)
    ensures r.Ok? ==> r.value.inputDisable == g.inputDisable
    ensures r.Ok? ==> r.value.halfRound == g.halfRound || r.value.halfRound == g.halfRound + 1
    ensures r.Err? ==> (r.error == CardNotFound(id) && id !in g.registry) || r.error.NotInZone?
  {
    if (g.computerThinking || g.inputDisable != 0) && !isComputer then Ok(g)
    else if g.phase == Changing then SelectWhileChanging(g, owner, id, draw)
    else SelectWhileMatching(g, owner, id, matcher)
  }

  // ----- Changing phase -----

  /** `select_card_while_changing`. */
  function SelectWhileChanging(g: Game, owner: Player, id: int, draw: Option<CardSpec>): (r: Result<Game, Fault>)
    requires RegistryKeyed(g)
    ensures owner != g.current && SelectedForSwap(g.registry, g.hands.Get(g.current)).Some? ==> r == Ok(g)
    ensures owner != g.current && SelectedForSwap(g.registry, g.hands.Get(g.current)).None? ==>
              r == Ok(ChangePlayer(g))
    ensures owner == g.current && id !in g.registry ==> r == Err(CardNotFound(id))
    ensures (owner == g.current && id in g.registry && g.registry[id].state == InPlay
             && SelectedForSwap(g.registry, g.hands.Get(g.current)).None?) ==> r == Ok(g)
    ensures (owner == g.current && id in g.registry && g.registry[id].state == InPlay
             && SelectedForSwap(g.registry, g.hands.Get(g.current)).Some?) ==>
              r == SwapCards(g, owner, SelectedForSwap(g.registry, g.hands.Get(g.current)).value, id, draw)
    ensures owner == g.current && id in g.registry && g.registry[id].state == InHand ==>
              r == Ok(ToggleSwapFlag(g, id))
    ensures owner == g.current && id in g.registry && g.registry[id].state == Destroyed ==> r == Ok(g)
    ensures r.Ok? ==> Grows(g, r.value)
    ensures r.Ok? ==> r.value.inputDisable == g.inputDisable
    ensures r.Ok? ==> r.value.selected == g.selected
    ensures r.Ok? ==> r.value.halfRound == g.halfRound || r.value.halfRound == g.halfRound + 1
    ensures r.Err? ==> (r.error == CardNotFound(id) && id !in g.registry) || r.error.NotInZone?
  {
    var flagged := SelectedForSwap(g.registry, g.hands.Get(g.current));
    if owner != g.current then
      if flagged.Some? then Ok(g) else Ok(ChangePlayer(g))
    else match GetCard(g, id)
      case None => Err(CardNotFound(id))
      case Some(card) =>
        if card.state == InPlay then
          if flagged.Some? then SwapCards(g, owner, flagged.value, id, draw) else Ok(g)
        else if card.state == InHand then Ok(ToggleSwapFlag(g, id))
        else Ok(g)
  }

  /** The hand-card branch of `select_card_while_changing`: clicking the
      flagged card clears its flag; clicking another card clears every flag
      in the current player's hand and flags the clicked card. */
  function ToggleSwapFlag(g: Game, id: int): (r: Game)
    requires id in g.registry
    ensures var hand := g.hands.Get(g.current);
            !g.registry[id].selectedForSwap ==>
              forall i :: 0 <= i < |hand| ==> (Flagged(r.registry, hand[i]) <==> hand[i] == id)
    ensures g.registry[id].selectedForSwap ==>
              r.registry == g.registry[id := g.registry[id].(selectedForSwap := false)]
    ensures AtMostOneFlagged(g.registry, g.hands.Get(g.current)) ==>
              AtMostOneFlagged(r.registry, g.hands.Get(g.current))
    ensures r.registry.Keys == g.registry.Keys
    ensures r.registry[id].selectedForSwap == !g.registry[id].selectedForSwap
    ensures forall k :: k in g.registry && k != id && k !in g.hands.Get(g.current) ==> r.registry[k] == g.registry[k]
    ensures forall k :: k in g.registry ==>
              r.registry[k] == g.registry[k].(selectedForSwap := r.registry[k].selectedForSwap)
    ensures r == g.(registry := r.registry)
  {
    var card := g.registry[id];
    if card.selectedForSwap then
      g.(registry := g.registry[id := SelectForSwap(card, false)])
    else
      var cleared := ClearSwapFlags(g.registry, g.hands.Get(g.current));
      g.(registry := cleared[id := SelectForSwap(cleared[id], true)])
  }

  // ----- Swap -----

  /** The synchronous start of `swap_cards`: the input gate is taken and both
      swap flags are cleared. The rest happens when the animation ends. */
  function BeginSwap(g: Game, handId: int, playId: int): (r: Game)
    ensures RegistryKeyed(g) ==> RegistryKeyed(r)
    ensures r.inputDisable == g.inputDisable + 1
    ensures r.registry.Keys == g.registry.Keys
    ensures handId in r.registry ==> !r.registry[handId].selectedForSwap
    ensures playId in r.registry ==> !r.registry[playId].selectedForSwap
    ensures forall k :: k in g.registry ==>
              r.registry[k] == g.registry[k].(selectedForSwap := r.registry[k].selectedForSwap)
    ensures forall k :: k in g.registry && k != handId && k != playId ==> r.registry[k] == g.registry[k]
    ensures r == g.(inputDisable := r.inputDisable, registry := r.registry)
  {
    g.(inputDisable := g.inputDisable + 1,
       registry := ClearSwapFlags(g.registry, [handId, playId]))
  }

  /** The completion callback of `swap_cards`: the two cards exchange slots,
      the card that went into play is marked `InPlay` with its hover reset,
      the card sent to the hand is replaced by a drawn card, the turn
      rotates and the gate is released. */
  function CompleteSwap(g: Game, owner: Player, handId: int, playId: int,
                        draw: Option<CardSpec>): (r: Result<Game, Fault>)
    requires RegistryKeyed(g)
    ensures r.Err? <==> handId !in g.hands.Get(owner) || playId !in g.plays.Get(owner)
    ensures r.Ok? ==> SwappedSlots(g, r.value, owner, handId, playId, draw)
    ensures r.Ok? ==> Grows(g, r.value) && RegistryKeyed(r.value)
    ensures r.Ok? ==> handId in g.registry ==>
              r.value.registry[handId] == g.registry[handId].(state := InPlay, hover := 0)
    ensures r.Ok? ==> forall k :: k in g.registry && k != handId ==> r.value.registry[k] == g.registry[k]
    ensures r.Ok? ==> r.value.inputDisable == g.inputDisable - 1
    ensures r.Ok? ==> r.value.halfRound == g.halfRound + 1
    ensures r.Ok? ==> r.value.phase == ChangePlayer(g).phase && r.value.current == ChangePlayer(g).current
    ensures r.Ok? ==> DrewCard(g, r.value, draw)
    ensures r.Ok? ==> r.value.players == g.players && r.value.computerThinking == g.computerThinking
    ensures r.Ok? ==> r.value.selected == g.selected
  {
    if handId !in g.hands.Get(owner) then Err(NotInZone(handId))
    else if playId !in g.plays.Get(owner) then Err(NotInZone(playId))
    else
      var g1 := Exchange(g, owner, handId, playId);
      IndexOfWritten(g.hands.Get(owner), IndexOf(g.hands.Get(owner), handId), playId);
      RotationIgnoresZones(g, g1);
      Ok(FinishSwap(g1, owner, playId, draw))
  }

  /** The end of the swap callback: the card sent back to the hand is
      replaced by a drawn card, the turn rotates once and the gate is
      released. */
  function FinishSwap(g: Game, owner: Player, sentBack: int, draw: Option<CardSpec>): (r: Game)
    requires RegistryKeyed(g)
    ensures r.plays == g.plays
    ensures draw.None? ==> r.hands == g.hands
    ensures draw.Some? ==>
              && r.hands.Get(owner) == ChangeCard(g.hands.Get(owner), sentBack, g.cardCount + 1)
              && r.hands.Get(OppositePlayer(owner)) == g.hands.Get(OppositePlayer(owner))
    ensures Grows(g, r) && RegistryKeyed(r)
    ensures forall k :: k in g.registry ==> r.registry[k] == g.registry[k]
    ensures r.inputDisable == g.inputDisable - 1
    ensures r.halfRound == g.halfRound + 1
    ensures r.phase == ChangePlayer(g).phase && r.current == ChangePlayer(g).current
    ensures r.selected == g.selected
    ensures DrewCard(g, r, draw)
    ensures r.players == g.players && r.computerThinking == g.computerThinking
  {
    var g2 := DiscardAndPickNew(g, owner, sentBack, draw);
    var g3 := ChangePlayer(g2);
    g3.(inputDisable := g3.inputDisable - 1)
  }

  /** The data steps of the swap callback before the draw: the hand card and
      the in-play card trade slots (found with `indexOf`), and the card now in
      play is marked `InPlay` with its hover reset. */
  function Exchange(g: Game, owner: Player, handId: int, playId: int): (r: Game)
    requires handId in g.hands.Get(owner) && playId in g.plays.Get(owner)
    ensures var h := IndexOf(g.hands.Get(owner), handId);
            var p := IndexOf(g.plays.Get(owner), playId);
            && r.hands.Get(owner) == g.hands.Get(owner)[h := playId]
            && r.plays.Get(owner) == g.plays.Get(owner)[p := handId]
    ensures r.hands.Get(OppositePlayer(owner)) == g.hands.Get(OppositePlayer(owner))
    ensures r.plays.Get(OppositePlayer(owner)) == g.plays.Get(OppositePlayer(owner))
    ensures r.registry.Keys == g.registry.Keys
    ensures handId in g.registry ==>
              r.registry[handId] == g.registry[handId].(state := InPlay, hover := 0)
    ensures forall k :: k in g.registry && k != handId ==> r.registry[k] == g.registry[k]
    ensures r == g.(hands := r.hands, plays := r.plays, registry := r.registry)
  {
    var hand := g.hands.Get(owner);
    var play := g.plays.Get(owner);
    var h := IndexOf(hand, handId);
    var p := IndexOf(play, playId);
    var reg := if handId in g.registry
               then g.registry[handId := ChangeState(g.registry[handId], InPlay).(hover := 0)]
               else g.registry;
    g.(hands := g.hands.Set(owner, hand[h := playId]),
       plays := g.plays.Set(owner, play[p := handId]),
       registry := reg)
  }

  /** The slots after a swap: the hand card sits at the in-play card's former
      index; the in-play card sits at the hand card's former index, unless a
      drawn card (with the next id) has replaced it there. The opponent's
      zones are untouched. */
  predicate SwappedSlots(g: Game, r: Game, owner: Player, handId: int, playId: int,
                         draw: Option<CardSpec>)
    requires handId in g.hands.Get(owner) && playId in g.plays.Get(owner)
  {
    var h := IndexOf(g.hands.Get(owner), handId);
    var p := IndexOf(g.plays.Get(owner), playId);
    && r.plays.Get(owner) == g.plays.Get(owner)[p := handId]
    && (draw.None? ==> r.hands.Get(owner) == g.hands.Get(owner)[h := playId])
    && (draw.Some? && playId !in g.hands.Get(owner) ==>
          r.hands.Get(owner) == g.hands.Get(owner)[h := g.cardCount + 1])
    && r.plays.Get(OppositePlayer(owner)) == g.plays.Get(OppositePlayer(owner))
    && r.hands.Get(OppositePlayer(owner)) == g.hands.Get(OppositePlayer(owner))
  }

  /** `SwappedSlots` reads only the zones and the card counter of the state
      before the swap. */
  lemma SwappedSlotsAgree(g: Game, h: Game, owner: Player, handId: int, playId: int,
                          draw: Option<CardSpec>)
    requires g.hands == h.hands && g.plays == h.plays && g.cardCount == h.cardCount
    ensures handId in g.hands.Get(owner) && playId in g.plays.Get(owner) ==>
              forall r :: SwappedSlots(g, r, owner, handId, playId, draw) == SwappedSlots(h, r, owner, handId, playId, draw)
  {
  }

  /** `swap_cards` as one atomic transaction. */
  function SwapCards(g: Game, owner: Player, handId: int, playId: int,
                     draw: Option<CardSpec>): (r: Result<Game, Fault>)
    requires RegistryKeyed(g)
    ensures r.Err? <==> handId !in g.hands.Get(owner) || playId !in g.plays.Get(owner)
    ensures r.Ok? ==> SwappedSlots(g, r.value, owner, handId, playId, draw)
    ensures r.Ok? ==> Grows(g, r.value) && RegistryKeyed(r.value)
    ensures r.Ok? ==> handId in r.value.registry ==> !r.value.registry[handId].selectedForSwap
    ensures r.Ok? ==> playId in r.value.registry ==> !r.value.registry[playId].selectedForSwap
    ensures r.Ok? ==> handId in g.registry ==>
              r.value.registry[handId] == g.registry[handId].(state := InPlay, hover := 0, selectedForSwap := false)
    ensures r.Ok? ==> playId in g.registry && playId != handId ==>
              r.value.registry[playId] == g.registry[playId].(selectedForSwap := false)
    ensures r.Ok? ==> forall k :: k in g.registry && k != handId && k != playId ==>
              r.value.registry[k] == g.registry[k]
    ensures r.Ok? ==> r.value.inputDisable == g.inputDisable
    ensures r.Ok? ==> r.value.halfRound == g.halfRound + 1
    ensures r.Ok? ==> r.value.phase == ChangePlayer(g).phase && r.value.current == ChangePlayer(g).current
    ensures r.Ok? ==> DrewCard(g, r.value, draw)
    ensures r.Ok? ==> r.value.players == g.players && r.value.computerThinking == g.computerThinking
    ensures r.Ok? ==> r.value.selected == g.selected
  {
    var g1 := BeginSwap(g, handId, playId);
    RotationIgnoresZones(g, g1);
    SwappedSlotsAgree(g, g1, owner, handId, playId, draw);
    CompleteSwap(g1, owner, handId, playId, draw)
  }

  /** `discard_and_pick_new`: when the deck yields a card, it takes the slot of
      `old` in the owner's hand and is registered; when the deck is empty
      nothing changes. */
  function DiscardAndPickNew(g: Game, owner: Player, outgoing: int, draw: Option<CardSpec>): (r: Game)
    ensures draw.None? ==> r == g
    ensures draw.Some? ==>
              var nid := g.cardCount + 1;
              && r.cardCount == nid
              && r.registry.Keys == g.registry.Keys + {nid}
              && r.hands.Get(owner) == ChangeCard(g.hands.Get(owner), outgoing, nid)
              && r.hands.Get(OppositePlayer(owner)) == g.hands.Get(OppositePlayer(owner))
              && r.registry[nid].id == nid
              && r.registry[nid].attack == draw.value.regex
              && r.registry[nid].dna == draw.value.password
              && r.registry[nid].state == InHand
              && Unselected(r.registry[nid])
              && (forall k :: k in g.registry && k != nid ==> r.registry[k] == g.registry[k])
              && r == g.(hands := r.hands, registry := r.registry, cardCount := r.cardCount)
  {
    match draw
    case None => g
    case Some(spec) =>
      var made := CardFromSpec(spec, g.cardCount);
      var incoming := ChangeState(made.0, InHand);
      var hand := ChangeCard(g.hands.Get(owner), outgoing, incoming.id);
      AddCard(g.(hands := g.hands.Set(owner, hand), cardCount := made.1), incoming)
  }

  /** What the draw of a swap adds to the registry: nothing when the deck is
      empty; otherwise exactly one card, built from the drawn entry with the
      next id, in the hand and unselected. */
  predicate DrewCard(g: Game, r: Game, draw: Option<CardSpec>) {
    && (draw.None? ==> r.registry.Keys == g.registry.Keys && r.cardCount == g.cardCount)
    && (draw.Some? ==>
          var nid := g.cardCount + 1;
          && r.cardCount == nid
          && r.registry.Keys == g.registry.Keys + {nid}
          && r.registry[nid] == Card(nid, draw.value.regex, draw.value.password, InHand, false, None, false, 0))
  }

  /** Under the invariant, a drawn card's id is not yet registered. */
  lemma DrawnIdIsFresh(g: Game)
    requires RegistryKeyed(g)
    ensures g.cardCount + 1 !in g.registry
  {
  }

  // ----- Matching phase -----

  /** `get_regex_string`: the patterns of the selected cards, concatenated in
      selection order. */
  function Pattern(reg: map<int, Card>, sel: seq<int>): (r: string)
    requires Registered(reg, sel)
    ensures sel == [] ==> r == ""
    ensures sel != [] ==>
              |reg[sel[0]].attack| <= |r| && r[..|reg[sel[0]].attack|] == reg[sel[0]].attack
  {
    if sel == [] then ""
    else reg[sel[0]].attack + Pattern(reg, sel[1..])
  }

  /** Selecting one more card appends its pattern. */
  lemma {:induction false} PatternAppend(reg: map<int, Card>, sel: seq<int>, id: int)
    requires Registered(reg, sel) && id in reg
    ensures Registered(reg, sel + [id])
    ensures Pattern(reg, sel + [id]) == Pattern(reg, sel) + reg[id].attack
  {
    if sel != [] {
      assert (sel + [id])[1..] == sel[1..] + [id];
      PatternAppend(reg, sel[1..], id);
    }
  }

  /** The pattern depends only on the selected cards' own patterns. */
  lemma {:induction false} PatternFrame(reg: map<int, Card>, reg': map<int, Card>, sel: seq<int>)
    requires Registered(reg, sel) && Registered(reg', sel)
    requires forall i :: 0 <= i < |sel| ==> reg'[sel[i]].attack == reg[sel[i]].attack
    ensures Pattern(reg', sel) == Pattern(reg, sel)
  {
    if sel != [] {
      PatternFrame(reg, reg', sel[1..]);
    }
  }

  /** Selecting a card extends the shown pattern by the card's pattern. */
  lemma SelectExtendsPattern(g: Game, id: int)
    requires Valid(g) && id in g.registry && !g.registry[id].selected
    ensures var r := ToggleSelection(g, id);
            Registered(r.registry, r.selected)
            && Pattern(r.registry, r.selected) == Pattern(g.registry, g.selected) + g.registry[id].attack
  {
    var r := ToggleSelection(g, id);
    PatternAppend(g.registry, g.selected, id);
    assert forall i :: 0 <= i < |r.selected| ==> r.selected[i] in g.registry;
    PatternFrame(g.registry, r.registry, r.selected);
  }

  /** Removing the last selected card takes its pattern off the end again. */
  lemma DeselectShortensPattern(g: Game, id: int)
    requires Valid(g) && id in g.registry && g.registry[id].selected
    requires g.selected[|g.selected| - 1] == id
    ensures var r := ToggleSelection(g, id);
            Registered(r.registry, r.selected)
            && Pattern(r.registry, r.selected) + g.registry[id].attack == Pattern(g.registry, g.selected)
  {
    var r := ToggleSelection(g, id);
    var rest := g.selected[..|g.selected| - 1];
    assert r.selected == rest;
    assert g.selected == rest + [id];
    PatternAppend(g.registry, rest, id);
    PatternFrame(g.registry, r.registry, rest);
  }

  /** The loop of `get_regex_string`. */
  method GetRegexString(reg: map<int, Card>, sel: seq<int>) returns (s: string)
    requires Registered(reg, sel)
    ensures s == Pattern(reg, sel)
  {
    s := "";
    var i := 0;
    while i < |sel|
      invariant 0 <= i <= |sel|
      invariant s == Pattern(reg, sel[..i])
    {
      PatternAppend(reg, sel[..i], sel[i]);
      assert sel[..i + 1] == sel[..i] + [sel[i]];
      s := s + reg[sel[i]].attack;
      i := i + 1;
    }
    assert sel[..i] == sel;
  }

  /** `select_card_while_matching`. */
  function SelectWhileMatching(g: Game, owner: Player, id: int, matcher: Matcher): (r: Result<Game, Fault>)
    requires Valid(g)
    ensures id !in g.registry <==> r == Err(CardNotFound(id))
    ensures id in g.registry && g.registry[id].state != InPlay ==> r == Ok(g)
    ensures id in g.registry && g.registry[id].state == InPlay && owner == g.current ==>
              r == Ok(ToggleSelection(g, id))
    ensures id in g.registry && g.registry[id].state == InPlay && owner != g.current ==>
              r == Ok(ChangePlayer(Attack(g, id, matcher)))
    ensures r.Ok? ==> Grows(g, r.value)
    ensures r.Ok? ==> r.value.inputDisable == g.inputDisable
    ensures r.Ok? ==> r.value.halfRound == g.halfRound || r.value.halfRound == g.halfRound + 1
  {
    match GetCard(g, id)
    case None => Err(CardNotFound(id))
    case Some(card) =>
      if owner == g.current then
        if card.state == InPlay then Ok(ToggleSelection(g, id)) else Ok(g)
      else if card.state == InPlay then Ok(ChangePlayer(Attack(g, id, matcher)))
      else Ok(g)
  }

  /** The own-card branch of `select_card_while_matching`: an unselected card
      is appended to the selection and labelled with the new length; a
      selected card is removed only when it is the last one selected. */
  function ToggleSelection(g: Game, id: int): (r: Game)
    requires Valid(g)
    requires id in g.registry
    ensures r.registry.Keys == g.registry.Keys
    ensures !g.registry[id].selected ==>
              && r.selected == g.selected + [id]
              && r.registry[id].selected
              && r.registry[id].selectionNumber == Some(|r.selected|)
    ensures g.registry[id].selected && g.selected[|g.selected| - 1] == id ==>
              && r.selected == g.selected[..|g.selected| - 1]
              && !r.registry[id].selected
              && r.registry[id].selectionNumber == None
    ensures g.registry[id].selected && g.selected[|g.selected| - 1] != id ==> r == g
    ensures forall k :: k in g.registry && k != id ==> r.registry[k] == g.registry[k]
    ensures r.registry[id].(selected := g.registry[id].selected,
                            selectionNumber := g.registry[id].selectionNumber) == g.registry[id]
    ensures r == g.(selected := r.selected, registry := r.registry)
  {
    var card := g.registry[id];
    if !card.selected then
      var sel := g.selected + [id];
      g.(selected := sel, registry := g.registry[id := Select(card, |sel|)])
    else
      var k := IndexOf(g.selected, id);
      if k + 1 == |g.selected| then
        g.(selected := if k >= 0 then g.selected[..k] else g.selected,
           registry := g.registry[id := Deselect(card)])
      else g
  }

  /** `attack`: the selected patterns, concatenated, are matched against the
      target card's `dna`; the longest match's length is dealt to the
      opponent of the current player, and the selection is cleared. The
      target card's `dna` is left as it is. */
  function Attack(g: Game, target: int, matcher: Matcher): (r: Game)
    requires Valid(g)
    requires target in g.registry
    ensures var ms := matcher(Pattern(g.registry, g.selected), g.registry[target].dna);
            var foe := OppositePlayer(g.current);
            && r.players.Get(foe).hits == g.players.Get(foe).hits + [Damage(ms)]
            && r.players.Get(g.current) == g.players.Get(g.current)
    ensures r.selected == []
    ensures r.registry.Keys == g.registry.Keys
    ensures forall k :: k in g.selected ==> !r.registry[k].selected && r.registry[k].selectionNumber == None
    ensures forall k :: k in g.registry && k !in g.selected ==> r.registry[k] == g.registry[k]
    ensures forall k :: k in g.registry ==>
              r.registry[k] == g.registry[k].(selected := r.registry[k].selected,
                                              selectionNumber := r.registry[k].selectionNumber)
    ensures r == g.(players := r.players, selected := r.selected, registry := r.registry)
  {
    var pattern := Pattern(g.registry, g.selected);
    var ms := matcher(pattern, g.registry[target].dna);
    var foe := OppositePlayer(g.current);
    var players := g.players.Set(foe, DealDamage(g.players.Get(foe), Damage(ms)));
    var reg := map k | k in g.registry :: if k in g.selected then Deselect(g.registry[k]) else g.registry[k];
    g.(players := players, selected := [], registry := reg)
  }
}
