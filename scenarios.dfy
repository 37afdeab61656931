/** Plays of the game through the handlers of `Game`, with the random draws given explicitly. */
module Scenarios {
  import opened DiceRules
  import opened AppState

  /** A draw that shows `v` on every die. */
  function Alike(v: int): (faces: seq<int>)
    requires IsFace(v)
    ensures IsDraw(faces) && forall k :: 0 <= k < |faces| ==> faces[k] == v
  {
    seq(DiceCount, _ => v)
  }

  /** A draw that shows `v` on dice 0 to 8 and `w` on die 9. */
  function AlikeButLast(v: int, w: int): (faces: seq<int>)
    requires IsFace(v) && IsFace(w)
    ensures IsDraw(faces) && faces[9] == w && forall k :: 0 <= k < 9 ==> faces[k] == v
  {
    seq(DiceCount, k => if k < 9 then v else w)
  }

  /** The first n dice of a board freeze exactly the positions 0 to n-1. */
  lemma BoardPrefixPositions(ds: seq<Die>, n: nat)
    requires IsBoard(ds) && n <= DiceCount
    ensures forall k :: Frozen(ds[0..n], k) <==> 0 <= k < n
  {
    forall k ensures Frozen(ds[0..n], k) <==> 0 <= k < n {
      if Frozen(ds[0..n], k) {
        var e :| e in ds[0..n] && e.index == k;
        var i :| 0 <= i < n && ds[i] == e;
      }
      if 0 <= k < n {
        assert ds[k] in ds[0..n];
      }
    }
  }

  /** The selection the refreeze play ends with: dice 0 to 8 of the first board, a second entry
      and die 9, all showing `v`, freeze every position with one value. */
  lemma RefrozenSelectionAlike(first: seq<Die>, a: Die, b: Die, v: int)
    requires IsBoard(first) && forall k :: 0 <= k < 9 ==> first[k].value == v
    requires a.value == v && b.value == v && b.index == 9
    ensures AllFrozenAlike(first[0..9] + [a, b])
  {
    var sel := first[0..9] + [a, b];
    forall k | 0 <= k < DiceCount ensures Frozen(sel, k) {
      if k < 9 {
        assert sel[k] == first[k] && sel[k] in sel;
      } else {
        assert sel[10] == b && sel[10] in sel;
      }
    }
    forall j | 0 <= j < |sel| ensures sel[j].value == v {
      if j < 9 {
        assert sel[j] == first[j];
      }
    }
  }

  /** A die of the board is not among the dice before it. */
  lemma NotInPrefix(ds: seq<Die>, lo: nat, k: nat)
    requires IsBoard(ds) && lo <= k < DiceCount
    ensures ds[k] !in ds[lo..k]
  {
    forall e | e in ds[lo..k] ensures e != ds[k] {
      var i :| lo <= i < k && ds[i] == e;
    }
  }

  /** Clicking the not yet selected dice `more` in order, after the selection `s0`, passes a click
      at which the win test fires: the one made while the selection holds nine entries. */
  predicate FiresOnAppend(s0: seq<Die>, more: seq<Die>) {
    |s0| <= 9 < |s0| + |more| && WinFires(s0 + more[..9 - |s0|])
  }

  /** One more click: the test fires during it exactly when the selection before it holds nine
      entries of one value. */
  lemma FiresOnAppendStep(s0: seq<Die>, more: seq<Die>, d: Die)
    ensures FiresOnAppend(s0, more + [d]) == (FiresOnAppend(s0, more) || WinFires(s0 + more))
  {
    if |s0| <= 9 < |s0| + |more| + 1 {
      assert (more + [d])[..9 - |s0|] == more[..9 - |s0|];
      if |s0| + |more| == 9 {
        assert more[..9 - |s0|] == more;
      }
    }
  }

  /** Extending the clicked range by die k appends that die and adds the click made with the
      selection as it was before it. */
  lemma SliceStep(s0: seq<Die>, ds: seq<Die>, lo: nat, k: nat)
    requires lo <= k < |ds|
    ensures s0 + ds[lo..k + 1] == (s0 + ds[lo..k]) + [ds[k]]
    ensures FiresOnAppend(s0, ds[lo..k + 1]) == (FiresOnAppend(s0, ds[lo..k]) || WinFires(s0 + ds[lo..k]))
  {
    assert ds[lo..k + 1] == ds[lo..k] + [ds[k]];
    FiresOnAppendStep(s0, ds[lo..k], ds[k]);
  }

  /** Clicks dice lo to hi-1 in order, none of them selected yet. */
  method ClickRange(g: Game, lo: nat, hi: nat)
    requires g.Valid() && lo <= hi <= DiceCount
    requires forall k :: lo <= k < hi ==> g.dices[k] !in g.selected
    modifies g
    ensures g.Valid()
    ensures g.selected == old(g.selected) + g.dices[lo..hi]
    ensures g.dices == old(g.dices) && g.rebuilds == old(g.rebuilds)
    ensures g.roll == old(g.roll) && g.time == old(g.time)
    ensures g.isWon == (old(g.isWon) || FiresOnAppend(old(g.selected), g.dices[lo..hi]))
    ensures g.timeTaken == if FiresOnAppend(old(g.selected), g.dices[lo..hi]) then g.time else old(g.timeTaken)
  {
    var s0, ds := g.selected, g.dices;
    var k := lo;
    while k < hi
      invariant lo <= k <= hi && g.Valid()
      invariant g.dices == ds && g.rebuilds == old(g.rebuilds)
      invariant g.roll == old(g.roll) && g.time == old(g.time)
      invariant g.selected == s0 + ds[lo..k]
      invariant forall j :: k <= j < hi ==> ds[j] !in s0
      invariant g.isWon == (old(g.isWon) || FiresOnAppend(s0, ds[lo..k]))
      invariant g.timeTaken == if FiresOnAppend(s0, ds[lo..k]) then g.time else old(g.timeTaken)
      decreases hi - k
    {
      var d := ds[k];
      assert d !in g.selected by {
        NotInPrefix(ds, lo, k);
      }
      g.HandleSelectDice(d);
      SliceStep(s0, ds, lo, k);
      k := k + 1;
    }
  }

  /** On a board where every die shows `v`, one roll, `ticks` seconds, then
      every die frozen in order: the tenth click wins, with the time and score of that moment. */
  method WinOnAlikeBoard(v: int, ticks: nat) returns (won: bool, taken: nat, rolls: nat, score: nat)
    requires IsFace(v)
    ensures won && taken == ticks && rolls == 1 && score == 100
  {
    var g := new Game(Alike(v));
    g.HandleRoll(Alike(v));
    var t := 0;
    while t < ticks
      invariant 0 <= t <= ticks && g.Valid()
      invariant g.time == t && g.roll == 1 && g.selected == [] && !g.isWon
      invariant forall k :: 0 <= k < DiceCount ==> g.dices[k].value == v
    {
      g.Tick();
      t := t + 1;
    }
    assert WinFires(g.dices[0..9]);
    ClickRange(g, 0, DiceCount);
    won, taken, rolls, score := g.isWon, g.timeTaken, g.roll, Score(g.roll);
  }

  /** Nine dice frozen at `v`, then a roll: the game is not won and the nine
      frozen dice still show `v`. */
  method NineFrozenThenRoll(v: int, draw: seq<int>) returns (won: bool, kept: bool)
    requires IsFace(v) && IsDraw(draw)
    ensures !won && kept
  {
    var g := new Game(Alike(v));
    ClickRange(g, 0, 9);
    g.HandleRoll(draw);
    assert forall k :: 0 <= k < 9 ==> Frozen(g.selected, k) by {
      forall k | 0 <= k < 9 ensures Frozen(g.selected, k) {
        assert g.selected[k] in g.selected;
      }
    }
    won := g.isWon;
    kept := forall k :: 0 <= k < 9 ==> g.dices[k].value == v;
  }

  /** The clock alone advances the time and never wins. */
  method TicksOnly(draw: seq<int>, n: nat) returns (time: nat, won: bool)
    requires IsDraw(draw)
    ensures time == n && !won
  {
    var g := new Game(draw);
    var t := 0;
    while t < n
      invariant 0 <= t <= n && g.Valid()
      invariant g.time == t && !g.isWon
    {
      g.Tick();
      t := t + 1;
    }
    time, won := g.time, g.isWon;
  }

  /** New Game after a win clears the roll count, the time, the selection and
      the won flag, and, the roll count having changed, shows the fresh draw. */
  method NewGameAfterWin(v: int, draw: seq<int>) returns (rolls: nat, won: bool, frozen: nat, time: nat, redrawn: bool)
    requires IsFace(v) && IsDraw(draw)
    ensures rolls == 0 && !won && frozen == 0 && time == 0 && redrawn
  {
    var g := new Game(Alike(v));
    g.HandleRoll(Alike(v));
    g.Tick();
    ClickRange(g, 0, DiceCount);
    assert g.isWon;
    g.HandleNewGame(draw);
    rolls, won, frozen, time := g.roll, g.isWon, |g.selected|, g.time;
    redrawn := forall k :: 0 <= k < DiceCount ==> g.dices[k].value == draw[k];
  }

  /** Nine dice frozen at `v`, then a click that UNFREEZES die 0: the handler declares the game
      won, with eight dice frozen and die 9 showing another value. */
  method UnfreezeClickWins(v: int, w: int) returns (won: bool, frozen: nat, first: int, last: int)
    requires IsFace(v) && IsFace(w) && v != w
    ensures won && frozen == 8 && first != last
  {
    var g := new Game(AlikeButLast(v, w));
    var ds := g.dices;
    ClickRange(g, 0, 9);
    assert g.selected == ds[0..9];
    assert WinFires(ds[0..9]);
    assert ds[0] in ds[0..9];
    DropPositionZero(ds);
    g.HandleSelectDice(ds[0]);
    won, frozen, first, last := g.isWon, |g.selected|, g.dices[0].value, g.dices[9].value;
  }

  /** Nine dice frozen at `v`, then die 9, which shows `w`: the handler declares the game won
      although the ten frozen dice do not share one value. */
  method MismatchedTenthWins(v: int, w: int) returns (won: bool, alike: bool)
    requires IsFace(v) && IsFace(w) && v != w
    ensures won && !alike
  {
    var g := new Game(AlikeButLast(v, w));
    assert WinFires(g.dices[0..9]);
    ClickRange(g, 0, DiceCount);
    assert g.selected[0].value == v && g.selected[9].value == w;
    won := g.isWon;
    alike := AllFrozenAlike(g.selected);
  }

  /** Nine dice frozen at `v`, a roll, then die 0 clicked again: the roll made a new object for
      die 0, so the click appends a second entry for position 0, and the handler declares the game
      won although die 9 is not frozen and shows whatever the draw gave it. */
  method RefreezeClickWins(v: int, w: int, draw: seq<int>) returns (won: bool, nineFrozen: bool, last: int)
    requires IsFace(v) && IsFace(w) && IsDraw(draw)
    ensures won && !nineFrozen && last == draw[9]
  {
    var g := new Game(AlikeButLast(v, w));
    var ds := g.dices;
    ClickRange(g, 0, 9);
    assert WinFires(g.selected) && g.selected == ds[0..9];
    RollAndClickZero(g, ds, draw);
    won, nineFrozen, last := g.isWon, Frozen(g.selected, 9), g.dices[9].value;
  }

  /** A roll, then a click on the new die 0, with dice 0 to 8 of the first board frozen alike. */
  method RollAndClickZero(g: Game, ds: seq<Die>, draw: seq<int>)
    requires g.Valid() && g.rebuilds == 0 && IsBoard(ds) && IsDraw(draw)
    requires g.selected == ds[0..9] && WinFires(ds[0..9])
    modifies g
    ensures g.Valid() && g.isWon && !Frozen(g.selected, 9) && g.dices[9].value == draw[9]
  {
    g.HandleRoll(draw);
    var second := g.dices;
    assert second[0] !in g.selected by {
      assert forall e :: e in g.selected ==> e.born == 0;
    }
    g.HandleSelectDice(second[0]);
    SecondEntryMissesNine(ds, second[0]);
  }

  /** Dice 0 to 7 frozen at `v`, a roll, then die 0 clicked again and die 8 clicked: the second
      click on die 0 appends a second entry for position 0, so at the click on die 8 the selection
      holds nine entries of one value for eight positions, and the handler declares the game won
      although die 9 is not frozen. */
  method RepeatedPositionWins(v: int, w: int, draw: seq<int>) returns (won: bool, nineFrozen: bool)
    requires IsFace(v) && IsFace(w) && IsDraw(draw)
    ensures won && !nineFrozen
  {
    var g := new Game(AlikeButLast(v, w));
    var ds := g.dices;
    ClickRange(g, 0, 8);
    assert g.selected == ds[0..8] && !g.isWon;
    RollAndClickZeroEight(g, ds, draw);
    won, nineFrozen := g.isWon, Frozen(g.selected, 9);
  }

  /** A roll, then clicks on the new die 0 and the new die 8, with dice 0 to 7 of the first board
      frozen alike. */
  method RollAndClickZeroEight(g: Game, ds: seq<Die>, draw: seq<int>)
    requires g.Valid() && g.rebuilds == 0 && IsBoard(ds) && IsDraw(draw)
    requires g.selected == ds[0..8] && forall k :: 0 <= k < 8 ==> ds[k].value == ds[0].value
    modifies g
    ensures g.Valid() && g.isWon && !Frozen(g.selected, 9)
  {
    g.HandleRoll(draw);
    var second := g.dices;
    assert second[0] !in g.selected && second[8] !in g.selected by {
      assert forall e :: e in g.selected ==> e.born == 0;
    }
    assert Frozen(g.selected, 0) by {
      assert ds[0] in ds[0..8];
    }
    g.HandleSelectDice(second[0]);
    assert second[8] !in g.selected by {
      assert second[8] != second[0];
    }
    PrefixWithRepeatAlike(ds, second[0]);
    g.HandleSelectDice(second[8]);
    TwoMoreMissNine(ds, second[0], second[8]);
  }

  /** Dice 0 to 7 of one value and a second entry of that value give the nine entries the win
      test looks for. */
  lemma PrefixWithRepeatAlike(ds: seq<Die>, a: Die)
    requires IsBoard(ds) && forall k :: 0 <= k < 8 ==> ds[k].value == ds[0].value
    requires a.value == ds[0].value
    ensures WinFires(ds[0..8] + [a])
  {
    var s := ds[0..8] + [a];
    assert forall j :: 0 <= j < 8 ==> s[j] == ds[j];
  }

  /** Dice 0 to 7 of a board and entries for positions 0 and 8 leave position 9 unfrozen. */
  lemma TwoMoreMissNine(ds: seq<Die>, a: Die, b: Die)
    requires IsBoard(ds) && a.index == 0 && b.index == 8
    ensures !Frozen(ds[0..8] + [a] + [b], 9)
  {
    BoardPrefixPositions(ds, 8);
    forall e | e in ds[0..8] + [a] + [b] ensures e.index != 9 {
      if e != a && e != b {
        assert Frozen(ds[0..8], e.index);
      }
    }
  }

  /** Dice 0 to 8 of a board and a second entry for position 0 leave position 9 unfrozen. */
  lemma SecondEntryMissesNine(ds: seq<Die>, a: Die)
    requires IsBoard(ds) && a.index == 0
    ensures !Frozen(ds[0..9] + [a], 9)
  {
    BoardPrefixPositions(ds, 9);
    forall e | e in ds[0..9] + [a] ensures e.index != 9 {
      if e != a {
        assert Frozen(ds[0..9], e.index);
      }
    }
  }

  /** Clicking die 0 again when dice 0 to 8 are frozen leaves dice 1 to 8 frozen, in order. */
  lemma DropPositionZero(ds: seq<Die>)
    requires IsBoard(ds)
    ensures Toggle(ds[0..9], ds[0]) == ds[1..9]
  {
    assert ds[0] in ds[0..9];
    assert ds[0..9] == [ds[0]] + ds[1..9];
    UnfreezeAppend([ds[0]], ds[1..9], 0);
    assert !Frozen(ds[1..9], 0) by {
      forall e | e in ds[1..9] ensures e.index != 0 {
        var i :| 1 <= i < 9 && ds[i] == e;
      }
    }
    UnfreezeAbsent(ds[1..9], 0);
  }

  /** Unfreezing position 9 in the refreeze play drops its first and its second entry and
      keeps the rest in order. */
  lemma DropPositionNine(first: seq<Die>, a: Die, b: Die)
    requires IsBoard(first) && a.index == 0 && b.index == 9
    ensures Unfreeze([first[9]] + first[0..9] + [a, b], 9) == first[0..9] + [a]
  {
    assert [first[9]] + first[0..9] + [a, b] == [first[9]] + (first[0..9] + ([a] + [b]));
    UnfreezeAppend([first[9]], first[0..9] + ([a] + [b]), 9);
    UnfreezeAppend(first[0..9], [a] + [b], 9);
    BoardPrefixPositions(first, 9);
    UnfreezeAbsent(first[0..9], 9);
    UnfreezeAppend([a], [b], 9);
  }

  /** Die 9 clicked first, then dice 0 to 8: at the click made with nine entries the selection
      holds die 9's other value, so the test does not fire. */
  method FreezeLastFirst(g: Game)
    requires g.Valid() && g.selected == [] && !g.isWon
    requires g.dices[1].value != g.dices[9].value
    modifies g
    ensures g.Valid() && !g.isWon
    ensures g.dices == old(g.dices) && g.rebuilds == old(g.rebuilds)
    ensures g.selected == [g.dices[9]] + g.dices[0..9]
  {
    var first := g.dices;
    g.HandleSelectDice(first[9]);
    assert g.selected == [first[9]];
    ClickRange(g, 0, 9);
    assert !FiresOnAppend([first[9]], first[0..9]) by {
      assert ([first[9]] + first[0..9][..8])[2] == first[1];
    }
  }

  /** After a roll, die 0 and die 9 are new objects: clicking them appends second entries for
      their positions. */
  method RefreezeAfterRoll(g: Game, draw: seq<int>)
    requires g.Valid() && !g.isWon && IsDraw(draw) && g.rebuilds == 0
    requires |g.selected| == 10 && Frozen(g.selected, 0)
    modifies g
    ensures g.Valid() && !g.isWon && g.rebuilds == 1
    ensures g.selected == old(g.selected) + [g.dices[0], g.dices[9]]
    ensures g.dices[0].value == old(g.dices)[0].value
  {
    ghost var frozen1 := g.selected;
    g.HandleRoll(draw);
    var second := g.dices;
    assert second[0] !in frozen1 && second[9] !in frozen1 by {
      assert forall e :: e in frozen1 ==> e.born == 0;
    }
    FreezeNew(g, second[0]);
    assert second[9] != second[0];
    FreezeNew(g, second[9]);
  }

  /** Clicking a die object not yet selected while ten or more entries are selected appends it,
      and the test, which wants exactly nine entries, does not fire. */
  method FreezeNew(g: Game, d: Die)
    requires g.Valid() && !g.isWon && d in g.dices && d !in g.selected && |g.selected| >= 10
    modifies g
    ensures g.Valid() && !g.isWon && g.selected == old(g.selected) + [d]
    ensures g.dices == old(g.dices) && g.rebuilds == old(g.rebuilds)
  {
    g.HandleSelectDice(d);
  }

  /** Clicking the die 9 object selected last again drops both entries for position 9. */
  method UnfreezeRefrozenLast(g: Game, first: seq<Die>)
    requires g.Valid() && !g.isWon && IsBoard(first)
    requires g.selected == [first[9]] + first[0..9] + [g.dices[0], g.dices[9]]
    modifies g
    ensures g.Valid() && !g.isWon && g.dices == old(g.dices) && g.rebuilds == old(g.rebuilds)
    ensures g.selected == first[0..9] + [g.dices[0]]
  {
    var second := g.dices;
    ghost var frozen2 := g.selected;
    assert |frozen2| == 12;
    assert second[9] in frozen2 by {
      assert frozen2[11] == second[9];
    }
    g.HandleSelectDice(second[9]);
    DropPositionNine(first, second[0], second[9]);
  }

  /** After the refreeze, a roll of `v` everywhere turns die 9 to `v`, and clicking it leaves all
      ten positions frozen at `v` in eleven entries, without a win. */
  method FreezeRerolledLast(g: Game, first: seq<Die>, v: int)
    requires g.Valid() && !g.isWon && IsFace(v) && g.rebuilds == 1
    requires IsBoard(first) && forall k :: 0 <= k < 9 ==> first[k].value == v
    requires g.selected == first[0..9] + [g.dices[0]]
    requires forall e :: e in first ==> e.born == 0
    modifies g
    ensures g.Valid() && !g.isWon
    ensures AllFrozenAlike(g.selected) && |g.selected| == 11
  {
    var second := g.dices;
    ghost var frozen3 := g.selected;
    assert !Frozen(frozen3, 9) by {
      BoardPrefixPositions(first, 9);
      forall e | e in frozen3 ensures e.index != 9 {
        if e != second[0] {
          assert Frozen(first[0..9], e.index);
        }
      }
    }
    g.HandleRoll(Alike(v));
    var third := g.dices;
    assert third[9].value == v;
    assert third[9] !in frozen3 by {
      assert forall e :: e in frozen3 ==> e.born <= 1;
    }
    g.HandleSelectDice(third[9]);
    assert g.selected == first[0..9] + [second[0], third[9]];
    RefrozenSelectionAlike(first, second[0], third[9], v);
  }

  /** A die frozen, rolled and clicked again is selected twice (the click compares die objects,
      and the roll made new ones). Played so, the selection never holds nine entries of one
      value at a click, and the game ends with all ten dice frozen at `v` and not won. */
  method RefrozenBoardMissesWin(v: int, w: int, draw: seq<int>) returns (won: bool, alike: bool, entries: nat)
    requires IsFace(v) && IsFace(w) && v != w && IsDraw(draw)
    ensures !won && alike && entries == 11
  {
    var g := new Game(AlikeButLast(v, w));
    var first := g.dices;
    FreezeLastFirst(g);
    assert Frozen(g.selected, 0) by {
      assert g.selected[1] == first[0] && g.selected[1] in g.selected;
    }
    RefreezeAfterRoll(g, draw);
    UnfreezeRefrozenLast(g, first);
    FreezeRerolledLast(g, first, v);
    won, alike, entries := g.isWon, AllFrozenAlike(g.selected), |g.selected|;
  }
}
