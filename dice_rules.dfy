/** The pure rules of the dice game: the die records, the rebuild of the board after a roll,
    the freeze/unfreeze toggle of the selection, the win test and the score. */
module DiceRules {

  /** Number of dice on the board (the `length: 10` of the rebuild). */
  const DiceCount: nat := 10

  /** One die object as the game creates it. `index` is its board position and `value` its face.
      `born` numbers the rebuild that created the object: the game compares dice by object
      identity, and two `Die` values are equal exactly when they denote the same object. */
  datatype Die = Die(index: int, value: int, born: nat)

  /** A face of a six-sided die. */
  predicate IsFace(v: int) {
    1 <= v <= 6
  }

  /** A draw of fresh faces, one per board position: what the random generator supplies to one rebuild. */
  predicate IsDraw(faces: seq<int>) {
    |faces| == DiceCount && forall k :: 0 <= k < |faces| ==> IsFace(faces[k])
  }

  /** A board: ten dice in position order, each showing a face. */
  predicate IsBoard(ds: seq<Die>) {
    |ds| == DiceCount && forall k :: 0 <= k < |ds| ==> ds[k].index == k && IsFace(ds[k].value)
  }

  /** Some entry of the selection is for board position `index` (`selected.some(...)`). */
  predicate Frozen(sel: seq<Die>, index: int) {
    exists e :: e in sel && e.index == index
  }

  /** Every selected die sits on the board and shows, on the board, the value it was frozen with. */
  predicate Agrees(sel: seq<Die>, ds: seq<Die>) {
    forall e :: e in sel ==> 0 <= e.index < |ds| && e.value == ds[e.index].value
  }

  /** Position in `sel` of the first entry for board position `index`, or |sel| when there is none
      (`selected.find(...)`). */
  function FirstFor(sel: seq<Die>, index: int): (j: nat)
    ensures j <= |sel|
    ensures j < |sel| ==> sel[j].index == index
    ensures forall i :: 0 <= i < j ==> sel[i].index != index
    ensures j < |sel| <==> Frozen(sel, index)
  {
    if sel == [] then 0
    else if sel[0].index == index then 0
    else 1 + FirstFor(sel[1..], index)
  }

  /** Die `k` of a rebuild: a frozen position takes the value of its first selection entry, any
      other position takes the fresh face drawn for it. The source writes the frozen value as
      `find(...)?.value || 0`; the `|| 0` only maps a missing or zero value to zero, and `find`
      cannot miss on this branch. */
  function RebuiltDie(sel: seq<Die>, faces: seq<int>, born: nat, k: nat): (d: Die)
    requires IsDraw(faces) && k < DiceCount
    ensures d.index == k && d.born == born
    ensures !Frozen(sel, k) ==> d.value == faces[k]
    ensures Frozen(sel, k) ==> d.value == sel[FirstFor(sel, k)].value
  {
    var j := FirstFor(sel, k);
    if j < |sel| then Die(k, sel[j].value, born) else Die(k, faces[k], born)
  }

  /** The dice-generation effect: ten new die objects, tagged `born`, built from the selection
      and a fresh draw. */
  function Rebuild(sel: seq<Die>, faces: seq<int>, born: nat): (ds: seq<Die>)
    requires IsDraw(faces)
    ensures |ds| == DiceCount
    ensures forall k :: 0 <= k < |ds| ==> ds[k].index == k && ds[k].born == born
    ensures forall k :: 0 <= k < |ds| && !Frozen(sel, k) ==> ds[k].value == faces[k]
    ensures forall k :: 0 <= k < |ds| && Frozen(sel, k) ==> ds[k].value == sel[FirstFor(sel, k)].value
  {
    seq(DiceCount, k requires 0 <= k < DiceCount => RebuiltDie(sel, faces, born, k))
  }

  /** The selection without any entry for board position `index` (`selected.filter(...)`). */
  function Unfreeze(sel: seq<Die>, index: int): (r: seq<Die>)
    ensures forall e :: e in r <==> e in sel && e.index != index
    ensures |r| <= |sel|
    ensures Frozen(sel, index) ==> |r| < |sel|
  {
    if sel == [] then []
    else if sel[0].index != index then [sel[0]] + Unfreeze(sel[1..], index)
    else Unfreeze(sel[1..], index)
  }

  /** The selection after clicking die `d`: a die object not yet selected is appended, otherwise
      every entry for its board position is dropped. */
  function Toggle(sel: seq<Die>, d: Die): (r: seq<Die>)
    ensures d !in sel ==> r == sel + [d]
    ensures d in sel ==> !Frozen(r, d.index) && |r| < |sel|
    ensures d in sel ==> forall e :: e in r <==> e in sel && e.index != d.index
  {
    if d !in sel then sel + [d] else Unfreeze(sel, d.index)
  }

  /** The win test exactly as the click handler performs it, on the selection as it was BEFORE
      the click: nine entries, all with the value of the first. */
  predicate WinFires(sel: seq<Die>) {
    |sel| == 9 && forall j :: 0 <= j < |sel| ==> sel[j].value == sel[0].value
  }

  /** The rule the game announces: every board position is frozen and all frozen entries share
      one value. */
  predicate AllFrozenAlike(sel: seq<Die>) {
    (forall k :: 0 <= k < DiceCount ==> Frozen(sel, k)) &&
    forall j :: 0 <= j < |sel| ==> sel[j].value == sel[0].value
  }

  /** The score shown on the winning screen: a hundred points per roll. */
  function Score(roll: nat): (s: nat)
    ensures s % 100 == 0 && s / 100 == roll
    ensures roll > 0 ==> s >= 100
  {
    roll * 100
  }

  /** Unfreezing works entry by entry, so the entries it keeps stay in their original order. */
  lemma {:induction false} UnfreezeAppend(a: seq<Die>, b: seq<Die>, index: int)
    ensures Unfreeze(a + b, index) == Unfreeze(a, index) + Unfreeze(b, index)
  {
    if a == [] {
      assert a + b == b;
    } else {
      assert (a + b)[1..] == a[1..] + b;
      UnfreezeAppend(a[1..], b, index);
    }
  }

  /** Unfreezing a position that has no entry leaves the selection as it was. */
  lemma {:induction false} UnfreezeAbsent(sel: seq<Die>, index: int)
    requires !Frozen(sel, index)
    ensures Unfreeze(sel, index) == sel
  {
    if sel != [] {
      assert sel[0] in sel;
      assert !Frozen(sel[1..], index) by {
        forall e | e in sel[1..] ensures e.index != index {
          assert e in sel;
        }
      }
      UnfreezeAbsent(sel[1..], index);
      assert [sel[0]] + sel[1..] == sel;
    }
  }

  /** A rebuild from a selection that agrees with the board gives a board again, every frozen
      position keeps the value it showed, and the selection still agrees with the new board. */
  lemma RebuildKeepsFrozen(sel: seq<Die>, ds: seq<Die>, faces: seq<int>, born: nat)
    requires IsBoard(ds) && Agrees(sel, ds) && IsDraw(faces)
    ensures IsBoard(Rebuild(sel, faces, born))
    ensures Agrees(sel, Rebuild(sel, faces, born))
    ensures forall k :: 0 <= k < DiceCount && Frozen(sel, k) ==> Rebuild(sel, faces, born)[k].value == ds[k].value
  {
    var nds := Rebuild(sel, faces, born);
    forall k | 0 <= k < DiceCount && Frozen(sel, k)
      ensures nds[k].value == ds[k].value
    {
      var j := FirstFor(sel, k);
      assert sel[j] in sel;
    }
    forall k | 0 <= k < DiceCount ensures IsFace(nds[k].value) {
      if !Frozen(sel, k) {
        assert nds[k].value == faces[k];
      }
    }
    forall e | e in sel ensures 0 <= e.index < |nds| && e.value == nds[e.index].value {
      assert Frozen(sel, e.index);
    }
  }

  /** Clicking a die on the board keeps the selection in agreement with the board. */
  lemma ToggleKeepsAgreement(sel: seq<Die>, ds: seq<Die>, d: Die)
    requires IsBoard(ds) && Agrees(sel, ds) && d in ds
    ensures Agrees(Toggle(sel, d), ds)
  {
    var r := Toggle(sel, d);
    forall e | e in r ensures 0 <= e.index < |ds| && e.value == ds[e.index].value {
      if e !in sel {
        var k :| 0 <= k < |ds| && ds[k] == d;
        assert e == ds[k];
      }
    }
  }
}
