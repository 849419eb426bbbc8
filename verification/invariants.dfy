/** The representation invariant `Valid` is kept by every action of the
    engine: each lemma takes a valid state and shows the state an action
    leads to is valid again. */
module Invariants {
  import opened Wrappers
  import opened Seqs
  import opened Cards
  import opened Patterns
  import opened Engine

  /** A state whose registry changed only in fields other than the selection,
      and grew only by fresh unselected cards, stays valid. */
  lemma FrameValid(g: Game, r: Game)
    requires Valid(g)
    requires RegistryKeyed(r) && ZonesRegistered(r)
    requires r.selected == g.selected
    requires g.registry.Keys <= r.registry.Keys
    requires forall k :: k in g.registry ==>
               && r.registry[k].selected == g.registry[k].selected
               && r.registry[k].selectionNumber == g.registry[k].selectionNumber
    requires forall k :: k in r.registry && k !in g.registry ==>
               !r.registry[k].selected && r.registry[k].selectionNumber == None
    ensures Valid(r)
  {
    forall i | 0 <= i < |r.selected|
      ensures r.registry[r.selected[i]].selectionNumber == Some(i + 1)
    {
      var k := g.selected[i];
      assert k in g.registry;
      assert g.registry[k].selectionNumber == Some(i + 1);
      assert r.registry[k].selectionNumber == g.registry[k].selectionNumber;
    }
  }

  /** A zone stays registered when one of its slots is overwritten with a
      registered id. */
  lemma WriteRegistered(reg: map<int, Card>, zone: seq<int>, i: int, id: int)
    requires Registered(reg, zone) && 0 <= i < |zone| && id in reg
    ensures Registered(reg, zone[i := id])
  {
  }

  /** A zone registered in a registry is registered in any larger one. */
  lemma RegisteredGrows(reg: map<int, Card>, reg': map<int, Card>, zone: seq<int>)
    requires Registered(reg, zone) && reg.Keys <= reg'.Keys
    ensures Registered(reg', zone)
  {
  }

  /** Every zone of a player, read through `Get`, is registered. */
  lemma ZonesOfPlayer(g: Game, p: Player)
    requires ZonesRegistered(g)
    ensures Registered(g.registry, g.hands.Get(p)) && Registered(g.registry, g.plays.Get(p))
  {
  }

  /** Changing the player keeps the invariant. */
  lemma ChangePlayerValid(g: Game)
    requires Valid(g)
    ensures Valid(ChangePlayer(g))
  {
  }

  /** Toggling a swap flag keeps the invariant. */
  lemma ToggleSwapFlagValid(g: Game, id: int)
    requires Valid(g) && id in g.registry
    ensures Valid(ToggleSwapFlag(g, id))
  {
    var r := ToggleSwapFlag(g, id);
    FrameValid(g, r);
  }

  /** Selecting an own card keeps the invariant: the card is appended once,
      with the label of its position. */
  lemma SelectValid(g: Game, id: int)
    requires Valid(g) && id in g.registry && !g.registry[id].selected
    ensures Valid(ToggleSelection(g, id))
  {
    var r := ToggleSelection(g, id);
    assert id !in g.selected;
    assert r.selected == g.selected + [id];
    assert forall i :: 0 <= i < |g.selected| ==> r.selected[i] == g.selected[i];
    assert forall k :: k in g.registry ==> (k in r.selected <==> k in g.selected || k == id);
    assert Distinct(r.selected);
  }

  /** Deselecting the last selected card keeps the invariant: it leaves the
      list, and the labels of the others are untouched. */
  lemma DeselectValid(g: Game, id: int)
    requires Valid(g) && id in g.registry && g.registry[id].selected
    ensures Valid(ToggleSelection(g, id))
  {
    var r := ToggleSelection(g, id);
    if g.selected[|g.selected| - 1] == id {
      var n := |g.selected| - 1;
      IndexOfDistinct(g.selected, n);
      assert r.selected == g.selected[..n];
      assert id !in r.selected;
      assert forall k :: k in g.registry && k != id ==> (k in r.selected <==> k in g.selected);
    }
  }

  /** Selecting or deselecting an own card keeps the invariant: the list
      stays duplicate-free, flags match membership and labels match
      positions. */
  lemma ToggleSelectionValid(g: Game, id: int)
    requires Valid(g) && id in g.registry
    ensures Valid(ToggleSelection(g, id))
  {
    if g.registry[id].selected {
      DeselectValid(g, id);
    } else {
      SelectValid(g, id);
    }
  }

  /** An attack keeps the invariant: afterwards nothing is selected. */
  lemma AttackValid(g: Game, target: int, matcher: Matcher)
    requires Valid(g) && target in g.registry
    ensures Valid(Attack(g, target, matcher))
  {
    var r := Attack(g, target, matcher);
    assert forall k :: k in r.registry ==> !r.registry[k].selected;
  }

  /** Taking the gate and clearing swap flags keeps the invariant. */
  lemma BeginSwapValid(g: Game, handId: int, playId: int)
    requires Valid(g)
    ensures Valid(BeginSwap(g, handId, playId))
  {
    FrameValid(g, BeginSwap(g, handId, playId));
  }

  /** Exchanging the slots of two registered cards keeps the invariant. */
  lemma ExchangeValid(g: Game, owner: Player, handId: int, playId: int)
    requires Valid(g)
    requires handId in g.hands.Get(owner) && playId in g.plays.Get(owner)
    ensures Valid(Exchange(g, owner, handId, playId))
  {
    var r := Exchange(g, owner, handId, playId);
    ZonesOfPlayer(g, owner);
    WriteRegistered(r.registry, g.hands.Get(owner), IndexOf(g.hands.Get(owner), handId), playId);
    WriteRegistered(r.registry, g.plays.Get(owner), IndexOf(g.plays.Get(owner), playId), handId);
    assert ZonesRegistered(r);
    FrameValid(g, r);
  }

  /** Drawing a replacement, rotating and releasing the gate keeps the
      invariant: the drawn card is registered before it enters the hand. */
  lemma FinishSwapValid(g: Game, owner: Player, sentBack: int, draw: Option<CardSpec>)
    requires Valid(g)
    ensures Valid(FinishSwap(g, owner, sentBack, draw))
  {
    var r := FinishSwap(g, owner, sentBack, draw);
    ZonesOfPlayer(g, owner);
    ZonesOfPlayer(g, OppositePlayer(owner));
    RegisteredGrows(g.registry, r.registry, g.hands.Get(owner));
    RegisteredGrows(g.registry, r.registry, g.hands.Get(OppositePlayer(owner)));
    RegisteredGrows(g.registry, r.registry, g.plays.first);
    RegisteredGrows(g.registry, r.registry, g.plays.second);
    if draw.Some? {
      var hand := g.hands.Get(owner);
      if sentBack in hand {
        WriteRegistered(r.registry, hand, IndexOf(hand, sentBack), g.cardCount + 1);
      }
    }
    assert Registered(r.registry, r.hands.Get(owner));
    assert Registered(r.registry, r.hands.Get(OppositePlayer(owner)));
    assert ZonesRegistered(r);
    FrameValid(g, r);
  }

  /** A completed swap keeps the invariant. */
  lemma SwapCardsValid(g: Game, owner: Player, handId: int, playId: int, draw: Option<CardSpec>)
    requires Valid(g)
    requires handId in g.hands.Get(owner) && playId in g.plays.Get(owner)
    ensures SwapCards(g, owner, handId, playId, draw).Ok?
    ensures Valid(SwapCards(g, owner, handId, playId, draw).value)
  {
    var g0 := BeginSwap(g, handId, playId);
    BeginSwapValid(g, handId, playId);
    var g1 := Exchange(g0, owner, handId, playId);
    ExchangeValid(g0, owner, handId, playId);
    FinishSwapValid(g1, owner, playId, draw);
    assert SwapCards(g, owner, handId, playId, draw).value == FinishSwap(g1, owner, playId, draw);
  }

  /** Every accepted input keeps the invariant. */
  lemma SelectCardPreservesValid(g: Game, owner: Player, id: int, isComputer: bool,
                                 draw: Option<CardSpec>, matcher: Matcher)
    requires Valid(g)
    requires SelectCard(g, owner, id, isComputer, draw, matcher).Ok?
    ensures Valid(SelectCard(g, owner, id, isComputer, draw, matcher).value)
  {
    if (g.computerThinking || g.inputDisable != 0) && !isComputer {
    } else if g.phase == Changing {
      var flagged := SelectedForSwap(g.registry, g.hands.Get(g.current));
      if owner != g.current {
        ChangePlayerValid(g);
      } else {
        var card := g.registry[id];
        if card.state == InPlay && flagged.Some? {
          SwapCardsValid(g, owner, flagged.value, id, draw);
        } else if card.state == InHand {
          ToggleSwapFlagValid(g, id);
        }
      }
    } else {
      var card := g.registry[id];
      if owner == g.current {
        if card.state == InPlay {
          ToggleSelectionValid(g, id);
        }
      } else if card.state == InPlay {
        AttackValid(g, id, matcher);
        ChangePlayerValid(Attack(g, id, matcher));
      }
    }
  }

  /** While a swap is animating, the gate is held: a click that does not come
      from the scripted opponent changes nothing. */
  lemma GateHeldDuringSwap(g: Game, handId: int, playId: int, owner: Player, id: int,
                           draw: Option<CardSpec>, matcher: Matcher)
    requires Valid(g) && 0 <= g.inputDisable
    ensures Valid(BeginSwap(g, handId, playId))
    ensures var pending := BeginSwap(g, handId, playId);
            SelectCard(pending, owner, id, false, draw, matcher) == Ok(pending)
  {
    BeginSwapValid(g, handId, playId);
  }
}
