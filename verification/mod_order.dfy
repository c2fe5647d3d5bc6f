/** Moving the selected mods one step up or down the list (the up and down
    buttons beside the mod list). Every maximal block of selected rows moves
    one place as a block, and the unselected row it passes goes round it. */
module ModOrder {
  import opened Common
  import opened ModList

  predicate IsSelected(r: Row) { r.selected }

  predicate IsUnselected(r: Row) { !r.selected }

  /** Every row of `s` is selected. */
  predicate AllSelected(s: seq<Row>)
  {
    forall j :: 0 <= j < |s| ==> s[j].selected
  }

  /** The selected rows form a block at the top of the list. */
  predicate SelectedAtTop(s: seq<Row>)
  {
    forall i :: 0 <= i < |s| && s[i].selected ==> AllSelected(s[..i])
  }

  /** The selected rows form a block at the bottom of the list. */
  predicate SelectedAtBottom(s: seq<Row>)
  {
    forall i :: 0 <= i < |s| && s[i].selected ==> AllSelected(s[i + 1..])
  }

  /** The list after the up button, as a scan from the top: a selected row
      directly below an unselected one changes place with it, and the scan
      goes on with the unselected row in its new place. */
  function MoveUp(s: seq<Row>): (r: seq<Row>)
    ensures |r| == |s|
    decreases |s|
  {
    if |s| < 2 then s
    else if s[1].selected && !s[0].selected then [s[1]] + MoveUp([s[0]] + s[2..])
    else [s[0]] + MoveUp(s[1..])
  }

  /** The list after the down button, as the same scan from the bottom. */
  function MoveDown(s: seq<Row>): (r: seq<Row>)
    ensures |r| == |s|
    decreases |s|
  {
    if |s| < 2 then s
    else
      var n := |s|;
      if s[n - 2].selected && !s[n - 1].selected then MoveDown(s[..n - 2] + [s[n - 1]]) + [s[n - 2]]
      else MoveDown(s[..n - 1]) + [s[n - 1]]
  }

  /** `modUpButton_Click`. The source walks the selected items in list
      order and moves each one above its upper neighbour when that neighbour
      is not selected. A move never reorders the selected items and only
      touches the two places involved, so walking the positions from the top
      visits the same items in the same state. */
  method MoveSelectedUp(rows: seq<Row>) returns (r: seq<Row>)
    ensures r == MoveUp(rows)
  {
    r := rows;
    if !(exists j :: 0 <= j < |rows| && rows[j].selected) {
      NoneSelectedFixed(rows);
      return;
    }
    var i := 1;
    while i < |r|
      invariant UpScanned(rows, r, i)
    {
      if r[i].selected && !r[i - 1].selected {
        var swapped := r[..i - 1] + [r[i], r[i - 1]] + r[i + 1..];
        UpScanSwap(rows, r, i, swapped);
        r := swapped;
      } else {
        UpScanKeep(rows, r, i);
      }
      i := i + 1;
    }
    UpScanDone(rows, r, i);
  }

  /** `modDownButton_Click`: the selected items walked from the bottom, each
      moved below its lower neighbour when that neighbour is not selected. */
  method MoveSelectedDown(rows: seq<Row>) returns (r: seq<Row>)
    ensures r == MoveDown(rows)
  {
    r := rows;
    if !(exists j :: 0 <= j < |rows| && rows[j].selected) {
      NoneSelectedFixed(rows);
      MoveDownMirrorsUp(rows);
      ReverseNoneSelected(rows);
      NoneSelectedFixed(Reverse(rows));
      ReverseReverse(rows);
      return;
    }
    var i := |r| - 2;
    DownScanStart(rows);
    while i >= 0
      invariant DownScanned(rows, r, i)
    {
      if r[i].selected && !r[i + 1].selected {
        var swapped := r[..i] + [r[i + 1], r[i]] + r[i + 2..];
        DownScanSwap(rows, r, i, swapped);
        r := swapped;
      } else {
        DownScanKeep(rows, r, i);
      }
      i := i - 1;
    }
    assert r[..1] + r[1..] == r;
  }

  /** The up scan has finished the rows above position `i - 1`: they are in
      their final places, and the rest is still to be scanned. */
  ghost predicate UpScanned(rows: seq<Row>, r: seq<Row>, i: int)
  {
    1 <= i <= |r| == |rows| && MoveUp(rows) == r[..i - 1] + MoveUp(r[i - 1..])
  }

  /** One position of the up scan where the two rows change place: the
      finished prefix grows by the lower row. */
  lemma UpScanSwap(rows: seq<Row>, r: seq<Row>, i: int, r': seq<Row>)
    requires UpScanned(rows, r, i) && i < |r| && r[i].selected && !r[i - 1].selected
    requires r' == r[..i - 1] + [r[i], r[i - 1]] + r[i + 1..]
    ensures UpScanned(rows, r', i + 1)
  {
    var x, y, rest := r[i - 1], r[i], r[i + 1..];
    assert r[i - 1..] == [x, y] + rest;
    assert r'[..i] == r[..i - 1] + [y];
    assert r'[i..] == [x] + rest;
    MoveUpSwapCons(x, y, rest);
  }

  /** One position of the up scan where the rows stay: the finished prefix
      grows by the upper row. */
  lemma UpScanKeep(rows: seq<Row>, r: seq<Row>, i: int)
    requires UpScanned(rows, r, i) && i < |r| && !(r[i].selected && !r[i - 1].selected)
    ensures UpScanned(rows, r, i + 1)
  {
    var q := r[i - 1..];
    assert q[0] == r[i - 1] && q[1] == r[i];
    assert q[1..] == r[i..];
    assert r[..i] == r[..i - 1] + [r[i - 1]];
    MoveUpKeepUnfold(q);
  }

  /** A scan that reached the last row has finished the list. */
  lemma UpScanDone(rows: seq<Row>, r: seq<Row>, i: int)
    requires UpScanned(rows, r, i) && i >= |r|
    ensures r == MoveUp(rows)
  {
    assert r[i - 1..] == [r[i - 1]];
    assert r[..i - 1] + [r[i - 1]] == r;
  }

  lemma MoveUpKeepUnfold(q: seq<Row>)
    requires |q| >= 2 && !(q[1].selected && !q[0].selected)
    ensures MoveUp(q) == [q[0]] + MoveUp(q[1..])
  {
  }

  lemma MoveUpSwapUnfold(q: seq<Row>)
    requires |q| >= 2 && q[1].selected && !q[0].selected
    ensures MoveUp(q) == [q[1]] + MoveUp([q[0]] + q[2..])
  {
  }

  lemma MoveDownSwapUnfold(p: seq<Row>)
    requires |p| >= 2 && p[|p| - 2].selected && !p[|p| - 1].selected
    ensures MoveDown(p) == MoveDown(p[..|p| - 2] + [p[|p| - 1]]) + [p[|p| - 2]]
  {
  }

  lemma MoveDownKeepUnfold(p: seq<Row>)
    requires |p| >= 2 && !(p[|p| - 2].selected && !p[|p| - 1].selected)
    ensures MoveDown(p) == MoveDown(p[..|p| - 1]) + [p[|p| - 1]]
  {
  }

  /** The down scan has finished the rows below position `i + 1`. */
  ghost predicate DownScanned(rows: seq<Row>, r: seq<Row>, i: int)
  {
    -1 <= i <= |r| - 2 && |r| == |rows| && MoveDown(rows) == MoveDown(r[..i + 2]) + r[i + 2..]
  }

  lemma DownScanStart(rows: seq<Row>)
    requires |rows| >= 1
    ensures DownScanned(rows, rows, |rows| - 2)
  {
    assert rows[..|rows|] == rows;
  }

  /** One position of the down scan where the two rows change place: the
      finished suffix grows by the upper row. */
  lemma DownScanSwap(rows: seq<Row>, r: seq<Row>, i: int, r': seq<Row>)
    requires DownScanned(rows, r, i) && i >= 0 && r[i].selected && !r[i + 1].selected
    requires r' == r[..i] + [r[i + 1], r[i]] + r[i + 2..]
    ensures DownScanned(rows, r', i - 1)
  {
    var p := r[..i + 2];
    assert p[i] == r[i] && p[i + 1] == r[i + 1] && p[..i] == r[..i];
    assert r'[..i + 1] == r[..i] + [r[i + 1]];
    assert r'[i + 1..] == [r[i]] + r[i + 2..];
    MoveDownSwapUnfold(p);
  }

  /** One position of the down scan where the rows stay: the finished suffix
      grows by the lower row. */
  lemma DownScanKeep(rows: seq<Row>, r: seq<Row>, i: int)
    requires DownScanned(rows, r, i) && i >= 0 && !(r[i].selected && !r[i + 1].selected)
    ensures DownScanned(rows, r, i - 1)
  {
    var p := r[..i + 2];
    assert p[i] == r[i] && p[i + 1] == r[i + 1] && p[..i + 1] == r[..i + 1];
    assert r[i + 1..] == [r[i + 1]] + r[i + 2..];
    MoveDownKeepUnfold(p);
  }

  /** A prefix of at least one row is all selected exactly when its first row
      is selected and the rest of it is. */
  lemma AllSelectedCons(s: seq<Row>, i: int)
    requires 1 <= i <= |s|
    ensures AllSelected(s[..i]) <==> s[0].selected && AllSelected(s[1..][..i - 1])
  {
    var a, b := s[..i], s[1..][..i - 1];
    assert forall j :: 0 <= j < |b| ==> b[j] == a[j + 1];
    if s[0].selected && AllSelected(b) {
      forall j | 0 <= j < |a| ensures a[j].selected {
        if j > 0 {
          assert a[j] == b[j - 1];
        }
      }
    }
  }

  /** The rows below position `i` read backwards are the rows above the
      mirrored position of the reversed list. */
  lemma SuffixMirror(s: seq<Row>, i: int)
    requires 0 <= i < |s|
    ensures AllSelected(s[i + 1..]) <==> AllSelected(Reverse(s)[..|s| - 1 - i])
  {
    MirroredSuffix(s, Reverse(s), i);
  }

  /** `SuffixMirror` for any list `m` that reads `s` backwards. */
  lemma MirroredSuffix(s: seq<Row>, m: seq<Row>, i: int)
    requires |m| == |s| && forall k :: 0 <= k < |s| ==> m[k] == s[|s| - 1 - k]
    requires 0 <= i < |s|
    ensures AllSelected(s[i + 1..]) <==> AllSelected(m[..|s| - 1 - i])
  {
    var a, b := s[i + 1..], m[..|s| - 1 - i];
    assert |a| == |b|;
    forall j | 0 <= j < |a| ensures a[j] == b[|a| - 1 - j] {
      assert a[j] == s[i + 1 + j];
      assert b[|a| - 1 - j] == m[|a| - 1 - j];
    }
    if AllSelected(b) {
      forall j | 0 <= j < |a| ensures a[j].selected {
        assert a[j] == b[|a| - 1 - j];
      }
    }
    if AllSelected(a) {
      forall k | 0 <= k < |b| ensures b[k].selected {
        assert b[k] == a[|a| - 1 - k];
      }
    }
  }

  /** With nothing selected the up button changes nothing. */
  lemma NoneSelectedFixed(s: seq<Row>)
    requires forall j :: 0 <= j < |s| ==> !s[j].selected
    ensures MoveUp(s) == s
  {
    MoveUpFixed(s);
  }

  lemma ReverseNoneSelected(s: seq<Row>)
    requires forall j :: 0 <= j < |s| ==> !s[j].selected
    ensures forall j :: 0 <= j < |Reverse(s)| ==> !Reverse(s)[j].selected
  {
  }

  /** Moving up keeps the selected rows in their order and the unselected
      rows in theirs. */
  lemma MoveUpKeepsOrder(s: seq<Row>)
    ensures Filter(IsSelected, MoveUp(s)) == Filter(IsSelected, s)
    ensures Filter(IsUnselected, MoveUp(s)) == Filter(IsUnselected, s)
  {
    MoveUpKeepsSelected(s);
    MoveUpKeepsUnselected(s);
  }

  /** The selected rows, read in order, are the same before and after. */
  lemma {:induction false} MoveUpKeepsSelected(s: seq<Row>)
    ensures Filter(IsSelected, MoveUp(s)) == Filter(IsSelected, s)
    decreases |s|
  {
    if |s| >= 2 {
      var a, b, t := s[0], s[1], s[2..];
      assert s == [a] + ([b] + t);
      assert s[1..] == [b] + t;
      if b.selected && !a.selected {
        MoveUpKeepsSelected([a] + t);
        MoveUpSwapUnfold(s);
        FilterCons(IsSelected, b, MoveUp([a] + t));
        FilterCons(IsSelected, a, t);
        FilterCons(IsSelected, a, [b] + t);
        FilterCons(IsSelected, b, t);
      } else {
        MoveUpKeepsSelected(s[1..]);
        MoveUpKeepUnfold(s);
        FilterCons(IsSelected, a, MoveUp(s[1..]));
        FilterCons(IsSelected, a, s[1..]);
      }
    }
  }

  /** The unselected rows, read in order, are the same before and after. */
  lemma {:induction false} MoveUpKeepsUnselected(s: seq<Row>)
    ensures Filter(IsUnselected, MoveUp(s)) == Filter(IsUnselected, s)
    decreases |s|
  {
    if |s| >= 2 {
      var a, b, t := s[0], s[1], s[2..];
      assert s == [a] + ([b] + t);
      assert s[1..] == [b] + t;
      if b.selected && !a.selected {
        MoveUpKeepsUnselected([a] + t);
        MoveUpSwapUnfold(s);
        FilterCons(IsUnselected, b, MoveUp([a] + t));
        FilterCons(IsUnselected, a, t);
        FilterCons(IsUnselected, a, [b] + t);
        FilterCons(IsUnselected, b, t);
      } else {
        MoveUpKeepsUnselected(s[1..]);
        MoveUpKeepUnfold(s);
        FilterCons(IsUnselected, a, MoveUp(s[1..]));
        FilterCons(IsUnselected, a, s[1..]);
      }
    }
  }

  /** Moving up is a rearrangement of the rows. */
  lemma {:induction false} MoveUpPermutes(s: seq<Row>)
    ensures multiset(MoveUp(s)) == multiset(s)
    decreases |s|
  {
    if |s| >= 2 {
      assert s == [s[0]] + [s[1]] + s[2..];
      if s[1].selected && !s[0].selected {
        MoveUpPermutes([s[0]] + s[2..]);
      } else {
        MoveUpPermutes(s[1..]);
        assert s == [s[0]] + s[1..];
      }
    }
  }

  /** A selected row moves up exactly one place when some row above it is
      unselected, and stays where it is otherwise. */
  lemma {:induction false} MoveUpSelectedStep(s: seq<Row>)
    ensures forall i :: 0 <= i < |s| && s[i].selected ==>
      if AllSelected(s[..i]) then MoveUp(s)[i] == s[i] else MoveUp(s)[i - 1] == s[i]
    decreases |s|
  {
    if |s| >= 2 {
      var u := MoveUp(s);
      if s[1].selected && !s[0].selected {
        var v := [s[0]] + s[2..];
        MoveUpSelectedStep(v);
        var w := MoveUp(v);
        forall i | 0 <= i < |s| && s[i].selected
          ensures if AllSelected(s[..i]) then u[i] == s[i] else u[i - 1] == s[i]
        {
          if i > 0 {
            AllSelectedCons(s, i);
          }
          if i >= 2 {
            assert v[i - 1] == s[i];
            assert !AllSelected(v[..i - 1]) by {
              assert !v[..i - 1][0].selected;
            }
            assert u[i - 1] == w[i - 2];
          }
        }
      } else {
        var v := s[1..];
        MoveUpSelectedStep(v);
        var w := MoveUp(v);
        forall i | 0 <= i < |s| && s[i].selected
          ensures if AllSelected(s[..i]) then u[i] == s[i] else u[i - 1] == s[i]
        {
          if i >= 1 {
            assert v[i - 1] == s[i] && v[i - 1].selected;
            assert u[i] == w[i - 1];
            assert i >= 2 ==> u[i - 1] == w[i - 2];
            AllSelectedCons(s, i);
            if !s[0].selected {
              assert !v[0].selected;
              assert i >= 2;
              assert !v[..i - 1][0].selected;
            }
          }
        }
      }
    }
  }

  /** The up button leaves the list as it is exactly when the selected rows
      already sit at the top. */
  lemma {:induction false} MoveUpFixed(s: seq<Row>)
    ensures MoveUp(s) == s <==> SelectedAtTop(s)
    decreases |s|
  {
    if |s| < 2 {
      forall i | 0 <= i < |s| && s[i].selected ensures AllSelected(s[..i]) { }
    } else if s[1].selected && !s[0].selected {
      assert MoveUp(s)[0] != s[0];
      assert !AllSelected(s[..1]) by { assert !s[..1][0].selected; }
    } else {
      var v := s[1..];
      MoveUpFixed(v);
      assert MoveUp(s) == s <==> MoveUp(v) == v by {
        assert s == [s[0]] + v;
      }
      TopStep(s);
    }
  }

  /** When the first two rows are not an unselected row above a selected one,
      the selected rows sit at the top of the list exactly when they sit at the
      top of its tail. */
  lemma TopStep(s: seq<Row>)
    requires |s| >= 2 && !(s[1].selected && !s[0].selected)
    ensures SelectedAtTop(s) <==> SelectedAtTop(s[1..])
  {
    var v := s[1..];
    if SelectedAtTop(s) {
      forall i | 0 <= i < |v| && v[i].selected ensures AllSelected(v[..i]) {
        assert AllSelected(s[..i + 1]);
        forall j | 0 <= j < i ensures v[..i][j].selected {
          assert v[..i][j] == s[..i + 1][j + 1];
        }
      }
    }
    if SelectedAtTop(v) {
      forall i | 0 <= i < |s| && s[i].selected ensures AllSelected(s[..i]) {
        if i > 0 {
          assert v[i - 1].selected;
          assert AllSelected(v[..i - 1]);
          assert i >= 2 ==> v[..i - 1][0] == v[0];
          assert s[0].selected;
          AllSelectedCons(s, i);
        }
      }
    }
  }

  /** The down button is the up button applied to the list read bottom to top. */
  lemma {:induction false} MoveDownMirrorsUp(s: seq<Row>)
    ensures MoveDown(s) == Reverse(MoveUp(Reverse(s)))
    decreases |s|
  {
    if |s| < 2 {
      ReverseReverse(s);
    } else {
      var n := |s|;
      var b, y, x := s[..n - 2], s[n - 2], s[n - 1];
      if y.selected && !x.selected {
        assert s == b + [y, x];
        MoveDownMirrorsUp(b + [x]);
        MirrorSwapStep(b, y, x);
      } else {
        assert s == s[..n - 1] + [x];
        MoveDownMirrorsUp(s[..n - 1]);
        MirrorKeepStep(s[..n - 1], x);
      }
    }
  }

  lemma MoveUpSwapCons(x: Row, y: Row, q: seq<Row>)
    requires y.selected && !x.selected
    ensures MoveUp([x, y] + q) == [y] + MoveUp([x] + q)
  {
    var p := [x, y] + q;
    assert p[0] == x && p[1] == y && p[2..] == q;
  }

  lemma MoveUpKeepCons(x: Row, q: seq<Row>)
    requires |q| >= 1 && !(q[0].selected && !x.selected)
    ensures MoveUp([x] + q) == [x] + MoveUp(q)
  {
    assert ([x] + q)[1..] == q;
  }

  lemma MoveDownSwapSnoc(b: seq<Row>, y: Row, x: Row)
    requires y.selected && !x.selected
    ensures MoveDown(b + [y, x]) == MoveDown(b + [x]) + [y]
  {
    var p := b + [y, x];
    assert p[..|p| - 2] + [p[|p| - 1]] == b + [x];
  }

  lemma MoveDownKeepSnoc(a: seq<Row>, x: Row)
    requires |a| >= 1 && !(a[|a| - 1].selected && !x.selected)
    ensures MoveDown(a + [x]) == MoveDown(a) + [x]
  {
    assert (a + [x])[..|a|] == a;
  }

  /** The mirror property carries over a swap of the last two rows. */
  lemma MirrorSwapStep(b: seq<Row>, y: Row, x: Row)
    requires y.selected && !x.selected
    requires MoveDown(b + [x]) == Reverse(MoveUp(Reverse(b + [x])))
    ensures MoveDown(b + [y, x]) == Reverse(MoveUp(Reverse(b + [y, x])))
  {
    var r := Reverse(b);
    assert b + [y] + [x] == b + [y, x];
    assert [x] + ([y] + r) == [x, y] + r;
    MoveDownSwapSnoc(b, y, x);
    ReverseSnoc(b, x);
    ReverseSnoc(b, y);
    ReverseSnoc(b + [y], x);
    MoveUpSwapCons(x, y, r);
    ReverseCons(y, MoveUp([x] + r));
  }

  /** The mirror property carries over a last row that stays. */
  lemma MirrorKeepStep(a: seq<Row>, x: Row)
    requires |a| >= 1 && !(a[|a| - 1].selected && !x.selected)
    requires MoveDown(a) == Reverse(MoveUp(Reverse(a)))
    ensures MoveDown(a + [x]) == Reverse(MoveUp(Reverse(a + [x])))
  {
    MoveDownKeepSnoc(a, x);
    ReverseSnoc(a, x);
    MoveUpKeepCons(x, Reverse(a));
    ReverseCons(x, MoveUp(Reverse(a)));
  }

  /** Moving down keeps the selected rows in their order and the unselected
      rows in theirs, and is a rearrangement of the rows. */
  lemma MoveDownKeepsOrder(s: seq<Row>)
    ensures Filter(IsSelected, MoveDown(s)) == Filter(IsSelected, s)
    ensures Filter(IsUnselected, MoveDown(s)) == Filter(IsUnselected, s)
    ensures multiset(MoveDown(s)) == multiset(s)
  {
    var t := Reverse(s);
    MoveDownMirrorsUp(s);
    MoveUpKeepsOrder(t);
    MoveUpPermutes(t);
    FilterReverse(IsSelected, MoveUp(t));
    FilterReverse(IsUnselected, MoveUp(t));
    FilterReverse(IsSelected, s);
    FilterReverse(IsUnselected, s);
    ReverseReverse(Filter(IsSelected, s));
    ReverseReverse(Filter(IsUnselected, s));
    ReverseMultiset(MoveUp(t));
    ReverseMultiset(s);
  }

  /** The down button leaves the list as it is exactly when the selected
      rows already sit at the bottom. */
  lemma MoveDownFixed(s: seq<Row>)
    ensures MoveDown(s) == s <==> SelectedAtBottom(s)
  {
    var t := Reverse(s);
    MoveDownMirrorsUp(s);
    MoveUpFixed(t);
    ReverseReverse(s);
    assert MoveDown(s) == s <==> MoveUp(t) == t by {
      if MoveUp(t) == t {
        assert Reverse(MoveUp(t)) == s;
      }
      if MoveDown(s) == s {
        ReverseReverse(MoveUp(t));
      }
    }
    BottomMirrorsTop(s);
  }

  lemma BottomMirrorsTop(s: seq<Row>)
    ensures SelectedAtBottom(s) <==> SelectedAtTop(Reverse(s))
  {
    var t := Reverse(s);
    var n := |s|;
    if SelectedAtBottom(s) {
      forall i | 0 <= i < n && t[i].selected ensures AllSelected(t[..i]) {
        assert s[n - 1 - i].selected;
        SuffixMirror(s, n - 1 - i);
      }
    }
    if SelectedAtTop(t) {
      forall i | 0 <= i < n && s[i].selected ensures AllSelected(s[i + 1..]) {
        assert t[n - 1 - i].selected;
        SuffixMirror(s, i);
      }
    }
  }

  lemma {:induction false} ReverseMultiset<T>(s: seq<T>)
    ensures multiset(Reverse(s)) == multiset(s)
  {
    if s != [] {
      ReverseMultiset(s[1..]);
      assert s == [s[0]] + s[1..];
    }
  }

  /** A selected row moves down exactly one place when some row below it is
      unselected, and stays where it is otherwise. */
  lemma MoveDownSelectedStep(s: seq<Row>)
    ensures forall i :: 0 <= i < |s| && s[i].selected ==>
      if AllSelected(s[i + 1..]) then MoveDown(s)[i] == s[i] else MoveDown(s)[i + 1] == s[i]
  {
    forall i | 0 <= i < |s| && s[i].selected
      ensures if AllSelected(s[i + 1..]) then MoveDown(s)[i] == s[i] else MoveDown(s)[i + 1] == s[i]
    {
      MoveDownSelectedAt(s, i);
    }
  }

  lemma MoveDownSelectedAt(s: seq<Row>, i: int)
    requires 0 <= i < |s| && s[i].selected
    ensures if AllSelected(s[i + 1..]) then MoveDown(s)[i] == s[i] else MoveDown(s)[i + 1] == s[i]
  {
    var t := Reverse(s);
    var n := |s|;
    var k := n - 1 - i;
    MoveDownMirrorsUp(s);
    MoveUpSelectedStep(t);
    assert t[k] == s[i] && t[k].selected;
    assert MoveDown(s)[i] == MoveUp(t)[k];
    assert i + 1 < n ==> MoveDown(s)[i + 1] == MoveUp(t)[k - 1];
    SuffixMirror(s, i);
  }
}
