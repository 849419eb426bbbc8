/** Repeated turn rotation. `change_player` is modular arithmetic on the
    half-round counter; these lemmas state its closed form and its periods. */
module Turns {
  import opened Engine

  /** `k` consecutive calls of `change_player`. */
  function ChangePlayerN(g: Game, k: nat): Game
  {
    if k == 0 then g else ChangePlayer(ChangePlayerN(g, k - 1))
  }

  /** The phase after it has been changed `t` times. */
  function PhaseAfter(ph: Phase, t: nat): Phase {
    if t == 0 then ph else ChangePhase(PhaseAfter(ph, t - 1))
  }

  /** The player after `t` flips. */
  function PlayerAfter(p: Player, t: nat): Player {
    if t == 0 then p else OppositePlayer(PlayerAfter(p, t - 1))
  }

  /** The number of multiples of `d` in the half-open range `(n, n + k]`. */
  function Multiples(n: nat, k: nat, d: nat): nat
    requires d > 0
  {
    if k == 0 then 0 else Multiples(n, k - 1, d) + (if (n + k) % d == 0 then 1 else 0)
  }

  /** The number of non-multiples of `d` in the half-open range `(n, n + k]`. */
  function NonMultiples(n: nat, k: nat, d: nat): nat
    requires d > 0
  {
    if k == 0 then 0 else NonMultiples(n, k - 1, d) + (if (n + k) % d == 0 then 0 else 1)
  }

  /** After `k` calls from half round `n`, the phase has changed once per even
      half round in `(n, n + k]` and the player once per half round in that
      range that is not a multiple of four; nothing else has changed. */
  lemma {:induction false} ChangePlayerClosedForm(g: Game, k: nat)
    ensures var n := g.halfRound;
            var r := ChangePlayerN(g, k);
            && r.halfRound == n + k
            && r.phase == PhaseAfter(g.phase, Multiples(n, k, 2))
            && r.current == PlayerAfter(g.current, NonMultiples(n, k, 4))
            && r == g.(halfRound := r.halfRound, phase := r.phase, current := r.current)
  {
    if k > 0 {
      ChangePlayerClosedForm(g, k - 1);
      var n := g.halfRound;
      var prev := ChangePlayerN(g, k - 1);
      assert ChangePlayerN(g, k) == ChangePlayer(prev);
      if (n + k) % 2 == 0 {
        assert Multiples(n, k, 2) == Multiples(n, k - 1, 2) + 1;
      } else {
        assert Multiples(n, k, 2) == Multiples(n, k - 1, 2);
      }
      if (n + k) % 4 == 0 {
        assert NonMultiples(n, k, 4) == NonMultiples(n, k - 1, 4);
      } else {
        assert NonMultiples(n, k, 4) == NonMultiples(n, k - 1, 4) + 1;
      }
    }
  }

  /** Calls compose: `a` calls followed by `b` calls are `a + b` calls. */
  lemma {:induction false} ChangePlayerCompose(g: Game, a: nat, b: nat)
    ensures ChangePlayerN(ChangePlayerN(g, a), b) == ChangePlayerN(g, a + b)
  {
    if b > 0 {
      ChangePlayerCompose(g, a, b - 1);
    }
  }

  /** Any four consecutive half rounds hold two even ones. */
  lemma EvenOfFour(n: nat)
    ensures Multiples(n, 4, 2) == 2
  {
    assert Multiples(n, 1, 2) == (if (n + 1) % 2 == 0 then 1 else 0);
    assert Multiples(n, 2, 2) == Multiples(n, 1, 2) + (if (n + 2) % 2 == 0 then 1 else 0);
    assert Multiples(n, 3, 2) == Multiples(n, 2, 2) + (if (n + 3) % 2 == 0 then 1 else 0);
    assert Multiples(n, 4, 2) == Multiples(n, 3, 2) + (if (n + 4) % 2 == 0 then 1 else 0);
    if n % 2 == 0 {
      assert (n + 1) % 2 == 1 && (n + 2) % 2 == 0 && (n + 3) % 2 == 1 && (n + 4) % 2 == 0;
    } else {
      assert (n + 1) % 2 == 0 && (n + 2) % 2 == 1 && (n + 3) % 2 == 0 && (n + 4) % 2 == 1;
    }
  }

  /** Any four consecutive half rounds hold three that are not multiples of
      four. */
  lemma NonMultiplesOfFour(n: nat)
    ensures NonMultiples(n, 4, 4) == 3
  {
    assert NonMultiples(n, 1, 4) == (if (n + 1) % 4 == 0 then 0 else 1);
    assert NonMultiples(n, 2, 4) == NonMultiples(n, 1, 4) + (if (n + 2) % 4 == 0 then 0 else 1);
    assert NonMultiples(n, 3, 4) == NonMultiples(n, 2, 4) + (if (n + 3) % 4 == 0 then 0 else 1);
    assert NonMultiples(n, 4, 4) == NonMultiples(n, 3, 4) + (if (n + 4) % 4 == 0 then 0 else 1);
    if n % 4 == 0 {
      assert (n + 1) % 4 != 0 && (n + 2) % 4 != 0 && (n + 3) % 4 != 0 && (n + 4) % 4 == 0;
    } else if n % 4 == 1 {
      assert (n + 1) % 4 != 0 && (n + 2) % 4 != 0 && (n + 3) % 4 == 0 && (n + 4) % 4 != 0;
    } else if n % 4 == 2 {
      assert (n + 1) % 4 != 0 && (n + 2) % 4 == 0 && (n + 3) % 4 != 0 && (n + 4) % 4 != 0;
    } else {
      assert (n + 1) % 4 == 0 && (n + 2) % 4 != 0 && (n + 3) % 4 != 0 && (n + 4) % 4 != 0;
    }
  }

  /** Any four consecutive half rounds hold two even ones and three that are
      not multiples of four. */
  lemma FourConsecutive(n: nat)
    ensures Multiples(n, 4, 2) == 2
    ensures NonMultiples(n, 4, 4) == 3
  {
    EvenOfFour(n);
    NonMultiplesOfFour(n);
  }

  /** Four calls: the phase is back, the player has changed. */
  lemma FourCalls(g: Game)
    ensures ChangePlayerN(g, 4) == g.(halfRound := g.halfRound + 4, current := OppositePlayer(g.current))
  {
    ChangePlayerClosedForm(g, 4);
    FourConsecutive(g.halfRound);
    assert PhaseAfter(g.phase, 2) == g.phase;
    assert PlayerAfter(g.current, 3) == OppositePlayer(g.current) by {
      assert PlayerAfter(g.current, 1) == OppositePlayer(g.current);
      assert PlayerAfter(g.current, 2) == g.current;
    }
  }

  /** Eight calls restore both the phase and the player, from any state. */
  lemma EightCalls(g: Game)
    ensures ChangePlayerN(g, 8) == g.(halfRound := g.halfRound + 8)
  {
    FourCalls(g);
    FourCalls(ChangePlayerN(g, 4));
    ChangePlayerCompose(g, 4, 4);
  }

  /** The opening of a match: from half round 0, the first player and the
      changing phase, the (phase, player) pairs of the next eight half rounds. */
  lemma OpeningRotation(g: Game)
    requires g.halfRound == 0 && g.current == FirstPlayer && g.phase == Changing
    ensures ChangePlayerN(g, 1).phase == Changing && ChangePlayerN(g, 1).current == SecondPlayer
    ensures ChangePlayerN(g, 2).phase == Matching && ChangePlayerN(g, 2).current == FirstPlayer
    ensures ChangePlayerN(g, 3).phase == Matching && ChangePlayerN(g, 3).current == SecondPlayer
    ensures ChangePlayerN(g, 4).phase == Changing && ChangePlayerN(g, 4).current == SecondPlayer
    ensures ChangePlayerN(g, 5).phase == Changing && ChangePlayerN(g, 5).current == FirstPlayer
    ensures ChangePlayerN(g, 6).phase == Matching && ChangePlayerN(g, 6).current == SecondPlayer
    ensures ChangePlayerN(g, 7).phase == Matching && ChangePlayerN(g, 7).current == FirstPlayer
    ensures ChangePlayerN(g, 8).phase == Changing && ChangePlayerN(g, 8).current == FirstPlayer
  {
    var g1 := ChangePlayerN(g, 1);
    var g2 := ChangePlayerN(g, 2);
    var g3 := ChangePlayerN(g, 3);
    var g4 := ChangePlayerN(g, 4);
    var g5 := ChangePlayerN(g, 5);
    var g6 := ChangePlayerN(g, 6);
    var g7 := ChangePlayerN(g, 7);
    assert ChangePlayerN(g, 0) == g;
    assert g1 == ChangePlayer(g);
    assert g2 == ChangePlayer(g1);
    assert g3 == ChangePlayer(g2);
    assert g4 == ChangePlayer(g3);
    assert g5 == ChangePlayer(g4);
    assert g6 == ChangePlayer(g5);
    assert g7 == ChangePlayer(g6);
    assert ChangePlayerN(g, 8) == ChangePlayer(g7);
  }
}
