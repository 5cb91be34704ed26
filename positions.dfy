/** Index bookkeeping shared by the row store and the table view.

    A table model holds its rows at positions 0..n-1; the sorter shows them in
    some display order (a sequence of model indices) and the selection is a
    sequence of view positions. Deleting a row renumbers every index above it;
    these definitions and lemmas say what that does to such sequences. */
module Positions {

  /** No index occurs twice in s. */
  predicate Distinct(s: seq<nat>) {
    forall i, j :: 0 <= i < j < |s| ==> s[i] != s[j]
  }

  /** The indices of s go strictly up (the shape of a JTable selection). */
  predicate Increasing(s: seq<nat>) {
    forall i, j :: 0 <= i < j < |s| ==> s[i] < s[j]
  }

  /** Every index of s can be used on a sequence of length n. */
  predicate Below(s: seq<nat>, n: nat) {
    forall i :: 0 <= i < |s| ==> s[i] < n
  }

  /** s lists each of the model indices 0..n-1 exactly once: a display order. */
  predicate IsOrdering(s: seq<nat>, n: nat) {
    Distinct(s) && Below(s, n) && forall v: nat :: v < n ==> v in s
  }

  /** The set of indices occurring in s. */
  function Elems(s: seq<nat>): set<nat> {
    set v | v in s
  }

  /** The indices 0, 1, ..., n-1 in ascending order. */
  function Range(n: nat): (r: seq<nat>)
    ensures |r| == n
    ensures forall i :: 0 <= i < n ==> r[i] == i
  {
    if n == 0 then [] else Range(n - 1) + [n - 1]
  }

  /** The elements of s at the positions idx, in the order idx lists them. */
  function Select<T>(s: seq<T>, idx: seq<nat>): (r: seq<T>)
    requires Below(idx, |s|)
    ensures |r| == |idx|
    ensures forall k :: 0 <= k < |idx| ==> r[k] == s[idx[k]]
  {
    if idx == [] then [] else [s[idx[0]]] + Select(s, idx[1..])
  }

  /** s with every element of R dropped, the rest in their order. */
  function Without(s: seq<nat>, R: set<nat>): (r: seq<nat>)
    ensures |r| <= |s|
    ensures forall v {:trigger v in r} :: v in r <==> v in s && v !in R
  {
    if s == [] then []
    else (if s[0] in R then [] else [s[0]]) + Without(s[1..], R)
  }

  /** The indices below n that are not in R, ascending: the old positions of
      the rows that remain after the rows at R are deleted. */
  function Survivors(n: nat, R: set<nat>): (r: seq<nat>)
    ensures Below(r, n)
    ensures forall v: nat {:trigger v in r} :: v in r <==> v < n && v !in R
  {
    RangeMembers(n);
    WithoutBelow(Range(n), R, n);
    Without(Range(n), R)
  }

  /** The survivors keep the ascending order of the original indices. */
  lemma SurvivorsIncreasing(n: nat, R: set<nat>)
    ensures Increasing(Survivors(n, R))
  {
    RangeOrdering(n);
    WithoutIncreasing(Range(n), R);
  }

  /** s with its element at position m taken out. */
  function RemoveAt<T>(s: seq<T>, m: nat): (r: seq<T>)
    requires m < |s|
    ensures |r| == |s| - 1
    ensures forall k :: 0 <= k < m ==> r[k] == s[k]
    ensures forall k :: m <= k < |r| ==> r[k] == s[k + 1]
  {
    s[..m] + s[m + 1..]
  }

  /** What happens to a sequence of indices when the item at index m is
      deleted: m itself disappears and every index above m moves down by one. */
  function Renumber(s: seq<nat>, m: nat): (r: seq<nat>)
    ensures |r| <= |s|
    ensures forall x {:trigger x in r} :: x in r <==> (x < m && x in s) || (m <= x && x + 1 in s)
  {
    if s == [] then []
    else
      assert s == [s[0]] + s[1..];
      (if s[0] == m then [] else [if s[0] > m then s[0] - 1 else s[0]]) + Renumber(s[1..], m)
  }

  /** What happens to a sequence of indices when a new item is inserted at
      index q: every index at or above q moves up by one. */
  function InsertShift(s: seq<nat>, q: nat): (r: seq<nat>)
    ensures |r| == |s|
    ensures forall k :: 0 <= k < |s| ==> r[k] == (if s[k] >= q then s[k] + 1 else s[k])
  {
    if s == [] then [] else [if s[0] >= q then s[0] + 1 else s[0]] + InsertShift(s[1..], q)
  }

  // ---------------------------------------------------------------------
  // Basic facts

  lemma DistinctTail(s: seq<nat>)
    requires |s| > 0 && Distinct(s)
    ensures Distinct(s[1..]) && s[0] !in s[1..]
  {
  }

  lemma DistinctPrepend(h: nat, t: seq<nat>)
    requires h !in t && Distinct(t)
    ensures Distinct([h] + t)
  {
    var s := [h] + t;
    forall i, j | 0 <= i < j < |s| ensures s[i] != s[j] {
      assert s[j] == t[j - 1];
      if i > 0 { assert s[i] == t[i - 1]; }
    }
  }

  lemma IncreasingPrepend(h: nat, t: seq<nat>)
    requires forall k :: 0 <= k < |t| ==> h < t[k]
    requires Increasing(t)
    ensures Increasing([h] + t)
  {
    var s := [h] + t;
    forall i, j | 0 <= i < j < |s| ensures s[i] < s[j] {
      assert s[j] == t[j - 1];
      if i > 0 { assert s[i] == t[i - 1]; }
    }
  }

  /** A distinct sequence has as many elements as it has values. */
  lemma {:induction false} DistinctCard(s: seq<nat>)
    requires Distinct(s)
    ensures |Elems(s)| == |s|
  {
    if s != [] {
      DistinctTail(s);
      DistinctCard(s[1..]);
      assert Elems(s) == {s[0]} + Elems(s[1..]);
    }
  }

  lemma {:induction false} RangeOrdering(n: nat)
    ensures IsOrdering(Range(n), n) && Increasing(Range(n))
  {
    var r := Range(n);
    forall v: nat | v < n ensures v in r {
      assert r[v] == v;
    }
  }

  /** Selecting a distinct set of positions from a distinct sequence gives a
      distinct sequence. */
  lemma SelectDistinct(s: seq<nat>, idx: seq<nat>)
    requires Below(idx, |s|) && Distinct(s) && Distinct(idx)
    ensures Distinct(Select(s, idx))
  {
  }

  lemma SelectRange<T>(s: seq<T>)
    ensures Select(s, Range(|s|)) == s
  {
    RangeOrdering(|s|);
  }

  lemma SelectFromRange(n: nat, s: seq<nat>)
    requires Below(s, n)
    ensures Select(Range(n), s) == s
  {
    RangeOrdering(n);
  }

  lemma SelectRemoveAt<T>(s: seq<T>, idx: seq<nat>, m: nat)
    requires Below(idx, |s|) && m < |idx|
    ensures Below(RemoveAt(idx, m), |s|)
    ensures Select(s, RemoveAt(idx, m)) == RemoveAt(Select(s, idx), m)
  {
    var r := RemoveAt(idx, m);
    forall k | 0 <= k < |r| ensures r[k] < |s| {
      if k < m { assert r[k] == idx[k]; } else { assert r[k] == idx[k + 1]; }
    }
  }

  // ---------------------------------------------------------------------
  // Without

  lemma {:induction false} WithoutIncreasing(s: seq<nat>, R: set<nat>)
    requires Increasing(s)
    ensures Increasing(Without(s, R))
  {
    if s != [] {
      var t := s[1..];
      assert Increasing(t);
      WithoutIncreasing(t, R);
      if s[0] !in R {
        var w := Without(t, R);
        forall k | 0 <= k < |w| ensures s[0] < w[k] {
          assert w[k] in w;
          assert w[k] in t;
          var i :| 0 <= i < |t| && t[i] == w[k];
          assert s[i + 1] == w[k];
        }
        IncreasingPrepend(s[0], w);
      }
    }
  }

  lemma WithoutBelow(s: seq<nat>, R: set<nat>, n: nat)
    requires Below(s, n)
    ensures Below(Without(s, R), n)
  {
    var w := Without(s, R);
    forall k | 0 <= k < |w| ensures w[k] < n {
      assert w[k] in w;
      assert w[k] in s;
    }
  }

  lemma WithoutEmpty(s: seq<nat>)
    ensures Without(s, {}) == s
  {
  }

  /** Dropping a value that does not occur changes nothing. */
  lemma {:induction false} WithoutAbsent(s: seq<nat>, R: set<nat>, j: nat)
    requires j !in s
    ensures Without(s, R + {j}) == Without(s, R)
  {
    if s != [] {
      assert s[0] != j;
      WithoutAbsent(s[1..], R, j);
    }
  }

  /** Dropping first R and then j is dropping R and j together. */
  lemma {:induction false} WithoutWithout(s: seq<nat>, R: set<nat>, j: nat)
    ensures Without(Without(s, R), {j}) == Without(s, R + {j})
  {
    if s != [] {
      var t := s[1..];
      WithoutWithout(t, R, j);
      if s[0] in R {
        assert Without(s, R) == Without(t, R);
        assert Without(s, R + {j}) == Without(t, R + {j});
      } else {
        var w := Without(t, R);
        assert Without(s, R) == [s[0]] + w;
        assert ([s[0]] + w)[0] == s[0] && ([s[0]] + w)[1..] == w;
        assert Without([s[0]] + w, {j}) == (if s[0] == j then [] else [s[0]]) + Without(w, {j});
        assert Without(s, R + {j}) == (if s[0] == j then [] else [s[0]]) + Without(t, R + {j});
      }
    }
  }

  /** Deleting one more value from a distinct sequence takes out exactly the
      position that value was at. */
  lemma {:induction false} WithoutOneMore(s: seq<nat>, R: set<nat>, m: nat)
    requires Distinct(s) && m < |Without(s, R)|
    ensures Without(s, R + {Without(s, R)[m]}) == RemoveAt(Without(s, R), m)
  {
    var j := Without(s, R)[m];
    DistinctTail(s);
    var t := s[1..];
    if s[0] in R {
      WithoutOneMore(t, R, m);
    } else {
      var w := Without(t, R);
      assert Without(s, R) == [s[0]] + w;
      if m == 0 {
        assert j == s[0];
        WithoutAbsent(t, R, j);
        assert RemoveAt([s[0]] + w, 0) == w;
      } else {
        assert j == w[m - 1] && j in w;
        assert j in t;
        WithoutOneMore(t, R, m - 1);
        assert RemoveAt([s[0]] + w, m) == [s[0]] + RemoveAt(w, m - 1);
      }
    }
  }

  /** A prefix of s that holds no value of R comes through Without intact. */
  lemma {:induction false} WithoutKeepsPrefix(s: seq<nat>, R: set<nat>, p: nat)
    requires p <= |s|
    requires forall q :: 0 <= q < p ==> s[q] !in R
    ensures p <= |Without(s, R)| && Without(s, R)[..p] == s[..p]
  {
    if p > 0 {
      WithoutKeepsPrefix(s[1..], R, p - 1);
      assert Without(s, R) == [s[0]] + Without(s[1..], R);
    }
  }

  /** Dropping a set of values that all occur in a distinct sequence shortens
      it by the size of the set. */
  lemma {:induction false} WithoutCount(s: seq<nat>, R: set<nat>)
    requires Distinct(s) && R <= Elems(s)
    ensures |Without(s, R)| == |s| - |R|
  {
    if s == [] {
      assert R == {};
    } else {
      DistinctTail(s);
      var t := s[1..];
      if s[0] in R {
        var R' := R - {s[0]};
        assert R' <= Elems(t);
        WithoutCount(t, R');
        WithoutAbsent(t, R', s[0]);
        assert R' + {s[0]} == R;
      } else {
        assert R <= Elems(t);
        WithoutCount(t, R);
      }
    }
  }

  lemma RangeMembers(n: nat)
    ensures forall v: nat :: v in Range(n) <==> v < n
  {
    var r := Range(n);
    forall v: nat ensures v in r <==> v < n {
      if v < n { assert r[v] == v; }
    }
  }

  // ---------------------------------------------------------------------
  // Renumber

  lemma {:induction false} RenumberDistinct(s: seq<nat>, m: nat)
    requires Distinct(s)
    ensures Distinct(Renumber(s, m))
  {
    if s != [] {
      DistinctTail(s);
      RenumberDistinct(s[1..], m);
      if s[0] != m {
        var h := if s[0] > m then s[0] - 1 else s[0];
        var rt := Renumber(s[1..], m);
        assert s[0] !in s[1..];
        assert h !in rt;
        DistinctPrepend(h, rt);
      }
    }
  }

  lemma RenumberBelow(s: seq<nat>, n: nat, m: nat)
    requires Below(s, n) && m < n
    ensures Below(Renumber(s, m), n - 1)
  {
    var r := Renumber(s, m);
    forall k | 0 <= k < |r| ensures r[k] < n - 1 {
      var x := r[k];
      assert x in r;
      if x < m {
      } else {
        assert x + 1 in s;
        var i :| 0 <= i < |s| && s[i] == x + 1;
      }
    }
  }

  lemma RenumberOrdering(s: seq<nat>, n: nat, m: nat)
    requires IsOrdering(s, n) && m < n
    ensures IsOrdering(Renumber(s, m), n - 1)
  {
    RenumberDistinct(s, m);
    RenumberBelow(s, n, m);
    forall v: nat | v < n - 1 ensures v in Renumber(s, m) {
      if v < m { assert v in s; } else { assert v + 1 in s; }
    }
  }

  lemma {:induction false} RenumberLength(s: seq<nat>, m: nat)
    requires Distinct(s)
    ensures |Renumber(s, m)| == if m in s then |s| - 1 else |s|
  {
    if s != [] {
      DistinctTail(s);
      RenumberLength(s[1..], m);
      assert s == [s[0]] + s[1..];
      assert m in s <==> m == s[0] || m in s[1..];
    }
  }

  lemma HeadBelowTail(s: seq<nat>)
    requires Increasing(s) && |s| > 0
    ensures forall y :: y in s[1..] ==> s[0] < y
  {
    forall y | y in s[1..] ensures s[0] < y {
      var i :| 0 <= i < |s[1..]| && s[1..][i] == y;
      assert s[i + 1] == y;
    }
  }

  /** Renumbering keeps a strict lower bound other than m, shifted the same way. */
  lemma RenumberLowerBound(t: seq<nat>, m: nat, a: nat)
    requires a != m && forall y :: y in t ==> a < y
    ensures forall x :: x in Renumber(t, m) ==> (if a > m then a - 1 else a) < x
  {
    forall x | x in Renumber(t, m) ensures (if a > m then a - 1 else a) < x {
      if x < m && x in t {
      } else {
        assert x + 1 in t;
      }
    }
  }

  lemma {:induction false} RenumberIncreasing(s: seq<nat>, m: nat)
    requires Increasing(s)
    ensures Increasing(Renumber(s, m))
  {
    if s != [] {
      var t := s[1..];
      assert Increasing(t);
      RenumberIncreasing(t, m);
      if s[0] != m {
        var h := if s[0] > m then s[0] - 1 else s[0];
        var rt := Renumber(t, m);
        HeadBelowTail(s);
        RenumberLowerBound(t, m, s[0]);
        forall k | 0 <= k < |rt| ensures h < rt[k] {
          assert rt[k] in rt;
        }
        IncreasingPrepend(h, rt);
      }
    }
  }

  /** Selection bookkeeping: removing the view row at position p keeps a
      selection within the shorter view. */
  lemma RenumberSelection(s: seq<nat>, n: nat, p: nat)
    requires Increasing(s) && Below(s, n) && p < n
    ensures Increasing(Renumber(s, p)) && Below(Renumber(s, p), n - 1)
  {
    RenumberIncreasing(s, p);
    RenumberBelow(s, n, p);
  }

  /** Removing the last, largest selected position leaves the rest alone. */
  lemma {:induction false} RenumberDropsLast(s: seq<nat>)
    requires Increasing(s) && |s| > 0
    ensures Renumber(s, s[|s| - 1]) == s[..|s| - 1]
  {
    if |s| > 1 {
      var t := s[1..];
      assert Increasing(t);
      RenumberDropsLast(t);
      assert t[|t| - 1] == s[|s| - 1];
      assert s[0] < s[|s| - 1];
      assert s[..|s| - 1] == [s[0]] + t[..|t| - 1];
    }
  }

  /** The same for a prefix of an increasing selection: dropping its last
      position sel[i] from sel[..i + 1] leaves sel[..i]. */
  lemma RenumberPrefix(sel: seq<nat>, i: nat)
    requires Increasing(sel) && i < |sel|
    ensures Renumber(sel[..i + 1], sel[i]) == sel[..i]
  {
    var s := sel[..i + 1];
    assert Increasing(s);
    RenumberDropsLast(s);
    assert s[|s| - 1] == sel[i] && s[..|s| - 1] == sel[..i];
  }

  /** Selecting at one more position in front puts that element in front. */
  lemma SelectCons<T>(s: seq<T>, v: nat, t: seq<nat>)
    requires v < |s| && Below(t, |s|)
    ensures Below([v] + t, |s|)
    ensures Select(s, [v] + t) == [s[v]] + Select(s, t)
  {
    assert ([v] + t)[1..] == t;
  }

  lemma WithoutCons(v: nat, t: seq<nat>, R: set<nat>)
    ensures Without([v] + t, R) == (if v in R then [] else [v]) + Without(t, R)
  {
    assert ([v] + t)[0] == v && ([v] + t)[1..] == t;
  }

  lemma RenumberCons(v: nat, t: seq<nat>, m: nat)
    ensures Renumber([v] + t, m) == (if v == m then [] else [if v > m then v - 1 else v]) + Renumber(t, m)
  {
    assert ([v] + t)[0] == v && ([v] + t)[1..] == t;
  }

  /** Deleting the row at index m, seen from the rows' original positions:
      if surv maps current indices to original ones, then renumbering any
      sequence of current indices and dropping surv[m] from its image agree. */
  lemma {:induction false} RenumberTracks(surv: seq<nat>, s: seq<nat>, m: nat)
    requires Distinct(surv) && Below(s, |surv|) && m < |surv|
    ensures Below(Renumber(s, m), |surv| - 1)
    ensures Select(RemoveAt(surv, m), Renumber(s, m)) == Without(Select(surv, s), {surv[m]})
  {
    RenumberBelow(s, |surv|, m);
    if s != [] {
      var v, t := s[0], s[1..];
      assert s == [v] + t;
      assert Below(t, |surv|);
      RenumberTracks(surv, t, m);
      TracksStep(surv, v, t, m);
    }
  }

  /** The induction step of RenumberTracks: one more index in front. */
  lemma TracksStep(surv: seq<nat>, v: nat, t: seq<nat>, m: nat)
    requires Distinct(surv) && v < |surv| && Below(t, |surv|) && m < |surv|
    requires Below(Renumber(t, m), |surv| - 1)
    requires Select(RemoveAt(surv, m), Renumber(t, m)) == Without(Select(surv, t), {surv[m]})
    ensures Below(Renumber([v] + t, m), |surv| - 1)
    ensures Select(RemoveAt(surv, m), Renumber([v] + t, m)) == Without(Select(surv, [v] + t), {surv[m]})
  {
    RenumberBelow([v] + t, |surv|, m);
    if v == m {
      TracksDropped(surv, t, m);
    } else {
      TracksKept(surv, v, t, m);
    }
  }

  /** The step where the index in front is the deleted one. */
  lemma TracksDropped(surv: seq<nat>, t: seq<nat>, m: nat)
    requires Below(t, |surv|) && m < |surv|
    requires Below(Renumber(t, m), |surv| - 1)
    requires Select(RemoveAt(surv, m), Renumber(t, m)) == Without(Select(surv, t), {surv[m]})
    ensures Renumber([m] + t, m) == Renumber(t, m)
    ensures Select(RemoveAt(surv, m), Renumber([m] + t, m)) == Without(Select(surv, [m] + t), {surv[m]})
  {
    var j := surv[m];
    var img := Select(surv, t);
    RenumberCons(m, t, m);
    assert [] + Renumber(t, m) == Renumber(t, m);
    SelectCons(surv, m, t);
    WithoutCons(j, img, {j});
    assert [] + Without(img, {j}) == Without(img, {j});
  }

  /** The step where the index in front survives the deletion. */
  lemma TracksKept(surv: seq<nat>, v: nat, t: seq<nat>, m: nat)
    requires v < |surv| && Below(t, |surv|) && m < |surv| && v != m && surv[v] != surv[m]
    requires Below(Renumber(t, m), |surv| - 1)
    requires Select(RemoveAt(surv, m), Renumber(t, m)) == Without(Select(surv, t), {surv[m]})
    ensures Below(Renumber([v] + t, m), |surv| - 1)
    ensures Select(RemoveAt(surv, m), Renumber([v] + t, m)) == Without(Select(surv, [v] + t), {surv[m]})
  {
    var surv' := RemoveAt(surv, m);
    var j := surv[m];
    var rt := Renumber(t, m);
    var img := Select(surv, t);
    var h := if v > m then v - 1 else v;
    RenumberCons(v, t, m);
    assert Renumber([v] + t, m) == [h] + rt;
    assert h < |surv'| && surv'[h] == surv[v];
    SelectCons(surv', h, rt);
    SelectCons(surv, v, t);
    WithoutCons(surv[v], img, {j});
  }

  // ---------------------------------------------------------------------
  // Deleting a selection from last to first

  /** While the selected positions sel[i+1..] have been deleted, every view
      position up to sel[i] still shows a row that is not deleted yet. */
  lemma PrefixUntouched(view: seq<nat>, sel: seq<nat>, i: nat)
    requires Distinct(view) && Increasing(sel) && Below(sel, |view|) && i < |sel|
    ensures forall q :: 0 <= q <= sel[i] ==> view[q] !in Elems(Select(view, sel[i + 1..]))
  {
    var later := Select(view, sel[i + 1..]);
    forall q | 0 <= q <= sel[i] ensures view[q] !in Elems(later) {
      assert forall k :: 0 <= k < |later| ==> later[k] == view[sel[i + 1 + k]] && sel[i] < sel[i + 1 + k];
    }
  }

  /** Taking one more selected position off the front of the remaining ones. */
  lemma SelectedStep(view: seq<nat>, sel: seq<nat>, i: nat)
    requires Below(sel, |view|) && i < |sel|
    ensures Elems(Select(view, sel[i..])) == Elems(Select(view, sel[i + 1..])) + {view[sel[i]]}
  {
    assert sel[i..] == [sel[i]] + sel[i + 1..];
    SelectCons(view, sel[i], sel[i + 1..]);
  }

  /** With nothing removed the survivors are all indices, in order, and
      mapping any index sequence back through them changes nothing. */
  lemma NothingRemoved<T>(s: seq<T>, order: seq<nat>)
    requires Below(order, |s|)
    ensures Select(s, Survivors(|s|, {})) == s
    ensures Select(Survivors(|s|, {}), order) == Without(order, {})
  {
    WithoutEmpty(Range(|s|));
    assert Survivors(|s|, {}) == Range(|s|);
    SelectRange(s);
    SelectFromRange(|s|, order);
    WithoutEmpty(order);
  }

  /** Deleting the rows shown at n distinct selected positions of a distinct
      view leaves exactly n fewer rows. */
  lemma SelectedCount(view: seq<nat>, sel: seq<nat>, n: nat)
    requires Distinct(view) && Below(view, n) && Increasing(sel) && Below(sel, |view|)
    ensures |Survivors(n, Elems(Select(view, sel)))| == n - |sel|
  {
    var S := Elems(Select(view, sel));
    SelectDistinct(view, sel);
    DistinctCard(Select(view, sel));
    RangeOrdering(n);
    RangeMembers(n);
    forall v | v in S ensures v in Elems(Range(n)) {
      var k :| 0 <= k < |sel| && Select(view, sel)[k] == v;
    }
    WithoutCount(Range(n), S);
  }

  // ---------------------------------------------------------------------
  // InsertShift

  lemma InsertShiftSelection(s: seq<nat>, n: nat, q: nat)
    requires Increasing(s) && Below(s, n)
    ensures Increasing(InsertShift(s, q)) && Below(InsertShift(s, q), n + 1)
  {
  }

  /** Inserting at q and then deleting q gives back the original indices. */
  lemma {:induction false} InsertShiftRenumber(s: seq<nat>, q: nat)
    ensures Renumber(InsertShift(s, q), q) == s
  {
    if s != [] {
      InsertShiftRenumber(s[1..], q);
      assert InsertShift(s, q) == [if s[0] >= q then s[0] + 1 else s[0]] + InsertShift(s[1..], q);
    }
  }
}
