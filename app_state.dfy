/** The state of the game component and its handlers: the roll count, the ten dice shown, the
    frozen dice in the order they were frozen, the won flag and the two clocks. Each handler is one
    atomic update of that state, including the dice rebuild that a change of the roll count
    triggers. */
module AppState {
  import opened DiceRules
  import WinCheck

  class Game {
    var roll: nat
    var dices: seq<Die>
    var selected: seq<Die>
    var isWon: bool
    var time: nat
    var timeTaken: nat
    /** How many times the dice have been rebuilt; the tag `born` of the dice now shown. */
    var rebuilds: nat

    /** The state the handlers keep: ten dice in position order showing faces, all from the last
        rebuild; every frozen entry shows its frozen value on the board; no frozen entry comes
        from a later rebuild than the board, so the dice of the next rebuild are new objects. */
    ghost predicate Valid()
      reads this
    {
      IsBoard(dices) && Agrees(selected, dices) &&
      (forall k :: 0 <= k < |dices| ==> dices[k].born == rebuilds) &&
      (forall e :: e in selected ==> e.born <= rebuilds)
    }

    /** The component as first shown: the initial state followed by the first run of the
        dice-generation effect, with `faces` as the draw. */
    constructor (faces: seq<int>)
      requires IsDraw(faces)
      ensures Valid()
      ensures roll == 0 && selected == [] && !isWon && time == 0 && timeTaken == 0
      ensures rebuilds == 0 && dices == Rebuild([], faces, 0)
      ensures forall k :: 0 <= k < DiceCount ==> dices[k].value == faces[k]
    {
      roll, selected, isWon, time, timeTaken := 0, [], false, 0, 0;
      rebuilds := 0;
      dices := Rebuild([], faces, 0);
      RebuildKeepsFrozen([], Rebuild([], faces, 0), faces, 0);
    }

    /** The dice-generation effect, run whenever `roll` changes: a new board of new die objects,
        frozen positions keeping their values, the others taking the draw. */
    method RollEffect(faces: seq<int>)
      requires Valid() && IsDraw(faces)
      modifies this`dices, this`rebuilds
      ensures Valid()
      ensures rebuilds == old(rebuilds) + 1 && dices == Rebuild(selected, faces, rebuilds)
      ensures forall k :: 0 <= k < DiceCount && Frozen(selected, k) ==> dices[k].value == old(dices)[k].value
      ensures forall k :: 0 <= k < DiceCount && !Frozen(selected, k) ==> dices[k].value == faces[k]
    {
      RebuildKeepsFrozen(selected, dices, faces, rebuilds + 1);
      rebuilds := rebuilds + 1;
      dices := Rebuild(selected, faces, rebuilds);
    }

    /** The Roll button: one more roll, which rebuilds the board from the current selection. */
    method HandleRoll(faces: seq<int>)
      requires Valid() && IsDraw(faces)
      modifies this
      ensures Valid()
      ensures roll == old(roll) + 1
      ensures selected == old(selected) && isWon == old(isWon)
      ensures time == old(time) && timeTaken == old(timeTaken)
      ensures rebuilds == old(rebuilds) + 1 && dices == Rebuild(selected, faces, rebuilds)
      ensures forall k :: 0 <= k < DiceCount && Frozen(selected, k) ==> dices[k].value == old(dices)[k].value
      ensures forall k :: 0 <= k < DiceCount && !Frozen(selected, k) ==> dices[k].value == faces[k]
    {
      roll := roll + 1;
      RollEffect(faces);
    }

    /** A click on die `d` of the board: toggles it in the selection, and declares the game won,
        recording the current time, when the selection as it was BEFORE the click held nine
        entries of one value. */
    method HandleSelectDice(d: Die)
      requires Valid() && d in dices
      modifies this`selected, this`isWon, this`timeTaken
      ensures Valid()
      ensures selected == Toggle(old(selected), d)
      ensures isWon == (old(isWon) || WinFires(old(selected)))
      ensures timeTaken == if WinFires(old(selected)) then time else old(timeTaken)
    {
      ToggleKeepsAgreement(selected, dices, d);
      var wins := WinFires(selected);
      selected := Toggle(selected, d);
      if wins {
        isWon := true;
        timeTaken := time;
      }
    }

    /** The corrected click, not in the component: the same toggle, but the game is won when,
        AFTER the click, every position is frozen with one value; a win then means all ten dice
        on the board show one value. */
    method HandleSelectDiceIntended(d: Die)
      requires Valid() && d in dices
      modifies this`selected, this`isWon, this`timeTaken
      ensures Valid()
      ensures selected == Toggle(old(selected), d)
      ensures isWon == (old(isWon) || AllFrozenAlike(selected))
      ensures timeTaken == if AllFrozenAlike(selected) then time else old(timeTaken)
      ensures isWon && !old(isWon) ==>
                forall k :: 0 <= k < DiceCount ==> Frozen(selected, k) && dices[k].value == dices[0].value
    {
      ToggleKeepsAgreement(selected, dices, d);
      selected := Toggle(selected, d);
      if AllFrozenAlike(selected) {
        WinCheck.AlikeSelectionMeansAlikeBoard(selected, dices);
        isWon := true;
        timeTaken := time;
      }
    }

    /** The New Game button: resets the counters, the selection and the won flag. The board is
        rebuilt (from the now empty selection) only when the roll count actually changes, that is
        when it was not already 0. */
    method HandleNewGame(faces: seq<int>)
      requires Valid() && IsDraw(faces)
      modifies this
      ensures Valid()
      ensures roll == 0 && time == 0 && timeTaken == 0 && selected == [] && !isWon
      ensures old(roll) == 0 ==> dices == old(dices) && rebuilds == old(rebuilds)
      ensures old(roll) != 0 ==> rebuilds == old(rebuilds) + 1 && dices == Rebuild([], faces, rebuilds)
      ensures old(roll) != 0 ==> forall k :: 0 <= k < DiceCount ==> dices[k].value == faces[k]
    {
      var rollChanged := roll != 0;
      roll, time, timeTaken, selected, isWon := 0, 0, 0, [], false;
      if rollChanged {
        RollEffect(faces);
      }
    }

    /** One firing of the one-second timer: the clock advances whether or not the game is won. */
    method Tick()
      requires Valid()
      modifies this`time
      ensures Valid()
      ensures time == old(time) + 1
    {
      time := time + 1;
    }
  }
}
