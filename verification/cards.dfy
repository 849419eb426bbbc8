/** The card entity of RegExkcd/src/card.ts: its identity, its pattern and
    target strings, its zone state and its selection and hover bookkeeping.
    Sprites, text objects and containers are presentation and are not part
    of the record. */
module Cards {
  import opened Wrappers
  import Text

  /** Zone state of a card. The source spells the last value `Destoyed`. */
  datatype CardState = InPlay | InHand | Destroyed

  /** A catalog entry: the pattern fragment (`regex`), the target string
      (`password`) and the art index. */
  datatype CardSpec = CardSpec(regex: string, password: string, imageIndex: int)

  /** The runtime card. `attack` is the card's pattern fragment and `dna`
      its target string (the match engine reads them as `regex` and
      `password`). `selectionNumber` is the text of the order label shown
      on a card selected for an attack: `None` for the empty label. */
  datatype Card = Card(
    id: int,
    attack: string,
    dna: string,
    state: CardState,
    selected: bool,
    selectionNumber: Option<int>,
    selectedForSwap: bool,
    hover: int)

  /** Upper clamp of the hover counter. */
  const MaxHover: int := 20

  /** A card that is neither selected for an attack nor flagged for a swap. */
  predicate Unselected(c: Card) {
    !c.selected && c.selectionNumber == None && !c.selectedForSwap
  }

  /** The constructor: the card takes the next id from the global card
      counter, whose new value is returned alongside. */
  function NewCard(attack: string, dna: string, count: nat): (r: (Card, nat))
    ensures r.1 == count + 1 && r.0.id == r.1
    ensures r.0.attack == attack && r.0.dna == dna
    ensures r.0.state == InPlay && r.0.hover == 0 && Unselected(r.0)
  {
    (Card(count + 1, attack, dna, InPlay, false, None, false, 0), count + 1)
  }

  /** `card_from_spec`: builds a card from a catalog entry. */
  function CardFromSpec(spec: CardSpec, count: nat): (r: (Card, nat))
    ensures r.0.attack == spec.regex && r.0.dna == spec.password
    ensures r.0.id == count + 1 && r.1 == r.0.id
    ensures r.0.state == InPlay && r.0.hover == 0 && Unselected(r.0)
  {
    NewCard(spec.regex, spec.password, count)
  }

  /** `generate_cards`: one fresh card per drawn catalog entry, in order. */
  method GenerateCards(specs: seq<CardSpec>, count: nat) returns (cards: seq<Card>, count': nat)
    ensures |cards| == |specs| && count' == count + |specs|
    ensures forall i :: 0 <= i < |cards| ==>
              cards[i].attack == specs[i].regex && cards[i].dna == specs[i].password
    ensures forall i :: 0 <= i < |cards| ==> count < cards[i].id <= count'
    ensures forall i, j :: 0 <= i < j < |cards| ==> cards[i].id < cards[j].id
    ensures forall i :: 0 <= i < |cards| ==> cards[i].state == InPlay && Unselected(cards[i])
  {
    cards := [];
    count' := count;
    var i := 0;
    while i < |specs|
      invariant 0 <= i <= |specs|
      invariant |cards| == i && count' == count + i
      invariant forall k :: 0 <= k < i ==>
                  cards[k].attack == specs[k].regex && cards[k].dna == specs[k].password
      invariant forall k :: 0 <= k < i ==> cards[k].id == count + 1 + k
      invariant forall k :: 0 <= k < i ==> cards[k].state == InPlay && Unselected(cards[k])
    {
      var made := CardFromSpec(specs[i], count');
      cards := cards + [made.0];
      count' := made.1;
      i := i + 1;
    }
  }

  /** `select`: marks the card selected and labels it with its order. */
  function Select(c: Card, order: int): (r: Card)
    ensures r.selected && r.selectionNumber == Some(order)
    ensures r.(selected := c.selected, selectionNumber := c.selectionNumber) == c
  {
    c.(selected := true, selectionNumber := Some(order))
  }

  /** `deselect`: clears the selection and empties the order label. */
  function Deselect(c: Card): (r: Card)
    ensures !r.selected && r.selectionNumber == None
    ensures r.(selected := c.selected, selectionNumber := c.selectionNumber) == c
  {
    c.(selected := false, selectionNumber := None)
  }

  /** Deselecting undoes a selection: a card that was not selected before is
      restored exactly. */
  lemma SelectThenDeselect(c: Card, order: int)
    requires !c.selected && c.selectionNumber == None
    ensures Deselect(Select(c, order)) == c
  {
  }

  /** `select_for_swap`: sets the swap flag; a call with the flag's current
      value changes nothing. */
  function SelectForSwap(c: Card, flag: bool): (r: Card)
    ensures r.selectedForSwap == flag
    ensures r.(selectedForSwap := c.selectedForSwap) == c
    ensures c.selectedForSwap == flag ==> r == c
  {
    if c.selectedForSwap != flag then c.(selectedForSwap := flag) else c
  }

  /** `change_state`: an unconditional assignment of the zone state. */
  function ChangeState(c: Card, s: CardState): (r: Card)
    ensures r.state == s
    ensures r.(state := c.state) == c
  {
    c.(state := s)
  }

  /** `destroy`. */
  function Destroy(c: Card): (r: Card)
    ensures r.state == Destroyed
    ensures r.(state := c.state) == c
  {
    ChangeState(c, Destroyed)
  }

  /** Nothing makes `Destroyed` terminal: a destroyed card can be put back
      into play by `change_state`. */
  lemma DestroyedIsNotTerminal(c: Card)
    ensures ChangeState(Destroy(c), InPlay).state == InPlay
    ensures ChangeState(Destroy(c), InPlay) == c.(state := InPlay)
  {
  }

  /** `remove_dna`: cuts the first occurrence of `pattern` out of the target
      string and destroys the card when the target becomes empty. */
  function RemoveDna(c: Card, pattern: string): (r: Card)
    ensures Text.Occurs(c.dna, pattern) ==> |r.dna| == |c.dna| - |pattern|
    ensures !Text.Occurs(c.dna, pattern) ==> r.dna == c.dna
    ensures Text.Occurs(c.dna, pattern) ==>
              var k := Text.FindFirst(c.dna, pattern);
              r.dna[..k] + pattern + r.dna[k..] == c.dna
    ensures r.dna == "" ==> r.state == Destroyed
    ensures r.dna != "" ==> r.state == c.state
    ensures r.state == Destroyed <==> r.dna == "" || c.state == Destroyed
    ensures r.(dna := c.dna, state := c.state) == c
  {
    var dna := Text.RemoveFirst(c.dna, pattern);
    Text.RemoveFirstRestore(c.dna, pattern);
    var kept := c.(dna := dna);
    if dna == "" then Destroy(kept) else kept
  }

  /** `update_hover` with the hit test replaced by `inside`: one step towards
      `MaxHover` while the pointer is over the card, one step towards 0
      otherwise, clamped to `[0, MaxHover]`. */
  function UpdateHover(c: Card, inside: bool): (r: Card)
    ensures 0 <= r.hover <= MaxHover
    ensures inside && 0 <= c.hover < MaxHover ==> r.hover == c.hover + 1
    ensures inside && c.hover < 0 ==> r.hover == 0
    ensures inside && MaxHover <= c.hover ==> r.hover == MaxHover
    ensures !inside && 0 < c.hover <= MaxHover ==> r.hover == c.hover - 1
    ensures !inside && c.hover <= 0 ==> r.hover == 0
    ensures !inside && MaxHover < c.hover ==> r.hover == MaxHover
    ensures r.(hover := c.hover) == c
  {
    var h := if inside then c.hover + 1 else c.hover - 1;
    var h := if h > MaxHover then MaxHover else h;
    var h := if h < 0 then 0 else h;
    c.(hover := h)
  }

  /** `k` updates with the pointer held over the card. */
  function HoverFor(c: Card, k: nat): Card
  {
    if k == 0 then c else UpdateHover(HoverFor(c, k - 1), true)
  }

  /** Holding the pointer over a card for `k` ticks raises its hover by `k`,
      saturating at `MaxHover`. */
  lemma {:induction false} HoverSaturates(c: Card, k: nat)
    requires 0 <= c.hover <= MaxHover
    ensures HoverFor(c, k).hover == if c.hover + k < MaxHover then c.hover + k else MaxHover
    ensures HoverFor(c, k) == c.(hover := HoverFor(c, k).hover)
  {
    if k > 0 {
      HoverSaturates(c, k - 1);
    }
  }
}
