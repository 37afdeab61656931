/** How the win test the click handler performs (`WinFires`, on the selection before the click)
    relates to the rule the game announces (`AllFrozenAlike`, on the selection after the click). */
module WinCheck {
  import opened DiceRules

  /** The board positions the selection freezes. */
  function Positions(sel: seq<Die>): (p: set<int>)
    ensures forall x :: x in p <==> Frozen(sel, x)
  {
    if sel == [] then {}
    else
      assert forall x :: Frozen(sel, x) <==> x == sel[0].index || Frozen(sel[1..], x) by {
        forall x ensures Frozen(sel, x) <==> x == sel[0].index || Frozen(sel[1..], x) {
          if Frozen(sel[1..], x) {
            var e :| e in sel[1..] && e.index == x;
            assert e in sel;
          }
          if Frozen(sel, x) && x != sel[0].index {
            var e :| e in sel && e.index == x;
            assert e in sel[1..];
          }
          assert sel[0] in sel;
        }
      }
      {sel[0].index} + Positions(sel[1..])
  }

  /** The positions 0 to n-1: n of them. */
  function Range(n: nat): (p: set<int>)
    ensures forall x :: x in p <==> 0 <= x < n
    ensures |p| == n
  {
    if n == 0 then {} else Range(n - 1) + {n - 1}
  }

  /** No two entries of the selection are for the same board position. */
  predicate DistinctPositions(sel: seq<Die>) {
    forall i, j :: 0 <= i < j < |sel| ==> sel[i].index != sel[j].index
  }

  /** Every entry of the selection is for a position on the board. */
  predicate OnBoard(sel: seq<Die>) {
    forall e :: e in sel ==> 0 <= e.index < DiceCount
  }

  /** A selection freezes at most as many positions as it has entries, exactly as many when no
      position has two entries, and fewer when some position has two. */
  lemma {:induction false} PositionsCount(sel: seq<Die>)
    ensures |Positions(sel)| <= |sel|
    ensures DistinctPositions(sel) ==> |Positions(sel)| == |sel|
    ensures !DistinctPositions(sel) ==> |Positions(sel)| < |sel|
  {
    if sel != [] {
      PositionsCount(sel[1..]);
      if DistinctPositions(sel) {
        assert DistinctPositions(sel[1..]) by {
          forall i, j | 0 <= i < j < |sel[1..]| ensures sel[1..][i].index != sel[1..][j].index {
            assert sel[1..][i] == sel[i + 1] && sel[1..][j] == sel[j + 1];
          }
        }
        assert sel[0].index !in Positions(sel[1..]);
      } else if sel[0].index !in Positions(sel[1..]) {
        assert !DistinctPositions(sel[1..]) by {
          var i, j :| 0 <= i < j < |sel| && sel[i].index == sel[j].index;
          assert sel[j] == sel[1..][j - 1];
          if i == 0 {
            assert sel[1..][j - 1] in sel[1..];
          } else {
            assert sel[i] == sel[1..][i - 1];
          }
        }
      }
    }
  }

  /** A subset is no larger than its superset, and one of the same size is the whole superset. */
  lemma SubsetCount(a: set<int>, b: set<int>)
    requires a <= b
    ensures |a| <= |b|
    ensures |a| == |b| ==> a == b
  {
    assert b == a + (b - a);
    assert a * (b - a) == {};
    if |a| == |b| {
      assert |b - a| == 0;
      assert b - a == {};
    }
  }

  /** A selection whose entries are all for positions below n freezes only such positions. */
  lemma PositionsWithin(s: seq<Die>, n: nat)
    requires forall e :: e in s ==> 0 <= e.index < n
    ensures Positions(s) <= Range(n)
  {
    forall x | x in Positions(s) ensures x in Range(n) {
      var e :| e in s && e.index == x;
    }
  }

  /** A selection for positions below n that holds each position at most once freezes all n
      positions exactly when it has n entries. */
  lemma CoversIffSize(s: seq<Die>, n: nat)
    requires forall e :: e in s ==> 0 <= e.index < n
    requires DistinctPositions(s)
    ensures (forall k :: 0 <= k < n ==> Frozen(s, k)) <==> |s| == n
  {
    var p, r := Positions(s), Range(n);
    PositionsWithin(s, n);
    assert |p| == |s| by { PositionsCount(s); }
    assert p == r <==> |s| == n by { SubsetCount(p, r); }
    assert p == r <==> forall k :: 0 <= k < n ==> Frozen(s, k) by {
      if forall k :: 0 <= k < n ==> Frozen(s, k) {
        forall x | x in r ensures x in p {
          assert Frozen(s, x);
        }
      }
    }
  }

  /** Appending a die for a position the selection does not freeze keeps positions distinct. */
  lemma AppendKeepsDistinct(sel: seq<Die>, d: Die)
    requires OnBoard(sel) && DistinctPositions(sel)
    requires 0 <= d.index < DiceCount && !Frozen(sel, d.index)
    ensures OnBoard(sel + [d]) && DistinctPositions(sel + [d])
  {
    var s := sel + [d];
    forall i, j | 0 <= i < j < |s| ensures s[i].index != s[j].index {
      assert s[i] == sel[i] && sel[i] in sel;
      if j < |sel| {
        assert s[j] == sel[j];
      }
    }
  }

  /** On a click that freezes a position not yet frozen, in a selection that holds each board
      position at most once, the handler's test together with a die of the shared value holds
      exactly when, after the click, all ten positions are frozen with one value. */
  lemma FreezingClickMatchesRule(sel: seq<Die>, d: Die)
    requires OnBoard(sel) && DistinctPositions(sel)
    requires 0 <= d.index < DiceCount && !Frozen(sel, d.index)
    ensures Toggle(sel, d) == sel + [d]
    ensures AllFrozenAlike(Toggle(sel, d)) <==> WinFires(sel) && sel[0].value == d.value
  {
    assert d !in sel;
    var s := sel + [d];
    AppendKeepsDistinct(sel, d);
    CoversIffSize(s, DiceCount);
    var alike := forall j :: 0 <= j < |s| ==> s[j].value == s[0].value;
    if |sel| > 0 {
      assert s[0] == sel[0] && s[|sel|] == d;
      assert alike <==> (forall j :: 0 <= j < |sel| ==> sel[j].value == sel[0].value) && d.value == sel[0].value by {
        assert forall j :: 0 <= j < |sel| ==> s[j] == sel[j];
      }
    }
  }

  /** The handler's test also fires on a click that UNFREEZES one of the nine dice, although the
      selection that click leaves cannot cover the board. */
  lemma UnfreezingClickStillWins(sel: seq<Die>, d: Die)
    requires WinFires(sel) && d in sel
    ensures !AllFrozenAlike(Toggle(sel, d))
  {
    var r := Toggle(sel, d);
    if AllFrozenAlike(r) {
      CoverNeedsTen(r);
    }
  }

  /** A selection that freezes every board position has at least ten entries. */
  lemma CoverNeedsTen(s: seq<Die>)
    requires forall k :: 0 <= k < DiceCount ==> Frozen(s, k)
    ensures |Positions(s)| >= DiceCount && |s| >= DiceCount
  {
    PositionsCount(s);
    assert Range(DiceCount) <= Positions(s) by {
      forall x | x in Range(DiceCount) ensures x in Positions(s) {
        assert Frozen(s, x);
      }
    }
    SubsetCount(Range(DiceCount), Positions(s));
  }

  /** The handler's test does not look at the clicked die: it fires even when the tenth die shows
      another value, so the selection after the click does not share one value. */
  lemma MismatchedClickStillWins(sel: seq<Die>, d: Die)
    requires WinFires(sel) && d !in sel && d.value != sel[0].value
    ensures !AllFrozenAlike(Toggle(sel, d))
  {
    var r := Toggle(sel, d);
    assert r[0] == sel[0] && r[9] == d;
  }

  /** The handler's test also fires on a click of a NEW die object for a position already frozen
      (after a roll, the board's objects are new): the die is appended as a second entry for that
      position, so the selection after the click still misses a position. */
  lemma RefreezingClickStillWins(sel: seq<Die>, d: Die)
    requires WinFires(sel) && d !in sel && Frozen(sel, d.index)
    ensures !AllFrozenAlike(Toggle(sel, d))
  {
    var r := Toggle(sel, d);
    if AllFrozenAlike(r) {
      assert Positions(r) <= Positions(sel) by {
        forall x | x in Positions(r) ensures x in Positions(sel) {
          var e :| e in r && e.index == x;
          if e != d {
            assert e in sel;
          }
        }
      }
      SubsetCount(Positions(r), Positions(sel));
      PositionsCount(sel);
      CoverNeedsTen(r);
    }
  }

  /** The handler's test misses a win the announced rule grants: when the selection after the
      click covers the board with one value but holds more than ten entries (a position selected
      twice), the selection before the click did not hold exactly nine. */
  lemma OverfullSelectionMissesWin(sel: seq<Die>, d: Die)
    requires AllFrozenAlike(Toggle(sel, d)) && |Toggle(sel, d)| > DiceCount
    ensures !WinFires(sel)
  {
  }

  /** The handler's test also fires when the nine entries before the click hold one position twice
      (a frozen die rolled and clicked again): they freeze at most eight positions, so no single
      click can leave the board covered. */
  lemma RepeatedPositionStillWins(sel: seq<Die>, d: Die)
    requires WinFires(sel) && !DistinctPositions(sel)
    ensures !AllFrozenAlike(Toggle(sel, d))
  {
    var r := Toggle(sel, d);
    if d in sel {
      UnfreezingClickStillWins(sel, d);
    } else if AllFrozenAlike(r) {
      PositionsCount(sel);
      assert Positions(r) <= Positions(sel) + {d.index} by {
        forall x | x in Positions(r) ensures x in Positions(sel) + {d.index} {
          var e :| e in r && e.index == x;
          if e != d {
            assert e in sel;
          }
        }
      }
      SubsetCount(Positions(r), Positions(sel) + {d.index});
      CoverNeedsTen(r);
    }
  }

  /** Whenever the handler's test fires and the selection after the click meets the announced
      rule, the click froze a new position with a die of the shared value, and the selection before
      it held each position once: every other click on which the test fires is one of the four
      above. */
  lemma FiringAgreesOnlyOnFreezingClick(sel: seq<Die>, d: Die)
    requires WinFires(sel)
    ensures AllFrozenAlike(Toggle(sel, d)) ==>
              d !in sel && !Frozen(sel, d.index) && d.value == sel[0].value && DistinctPositions(sel)
  {
    if d in sel {
      UnfreezingClickStillWins(sel, d);
    } else if Frozen(sel, d.index) {
      RefreezingClickStillWins(sel, d);
    } else if d.value != sel[0].value {
      MismatchedClickStillWins(sel, d);
    } else if !DistinctPositions(sel) {
      RepeatedPositionStillWins(sel, d);
    }
  }

  /** The two tests related exactly: on a click when the handler's test fires, the announced rule
      holds afterwards if and only if the click freezes a new position with a die of the shared
      value and the selection before it held each position once. */
  lemma WinTestsRelation(sel: seq<Die>, d: Die)
    requires WinFires(sel) && OnBoard(sel) && 0 <= d.index < DiceCount
    ensures AllFrozenAlike(Toggle(sel, d)) <==>
              d !in sel && !Frozen(sel, d.index) && d.value == sel[0].value && DistinctPositions(sel)
  {
    FiringAgreesOnlyOnFreezingClick(sel, d);
    if !Frozen(sel, d.index) && DistinctPositions(sel) {
      FreezingClickMatchesRule(sel, d);
    }
  }

  /** What the announced rule means for the board: when the selection agrees with the board and
      freezes all ten positions with one value, every die is frozen and all ten show that value. */
  lemma AlikeSelectionMeansAlikeBoard(sel: seq<Die>, ds: seq<Die>)
    requires IsBoard(ds) && Agrees(sel, ds) && AllFrozenAlike(sel)
    ensures forall k :: 0 <= k < DiceCount ==> Frozen(sel, k) && ds[k].value == ds[0].value
  {
    assert Frozen(sel, 0);
    forall k | 0 <= k < DiceCount ensures ds[k].value == sel[0].value {
      assert Frozen(sel, k);
      var e :| e in sel && e.index == k;
      var j :| 0 <= j < |sel| && sel[j] == e;
      assert sel[j].value == sel[0].value;
    }
  }
}
