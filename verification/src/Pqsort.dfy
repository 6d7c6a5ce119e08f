/**
pqsort.c: Bentley and McIlroy's quicksort, which descends only into the parts
that overlap the wanted positions. Addresses are element indices, so `swap` and
`vecswap` exchange whole elements whatever their size.
*/
module Pqsort {

  /** The comparison a caller must supply. */
  ghost predicate TotalPreorder<T(!new)>(cmp: (T, T) -> int) {
    && (forall x, y :: cmp(x, y) < 0 <==> cmp(y, x) > 0)
    && (forall x, y, z :: cmp(x, y) <= 0 && cmp(y, z) <= 0 ==> cmp(x, z) <= 0)
  }

  /** `t` is `s` with the elements at positions lo..hi rearranged. */
  ghost predicate Rearranged<T>(s: seq<T>, t: seq<T>, lo: nat, hi: nat) {
    && |s| == |t|
    && multiset(s) == multiset(t)
    && forall k {:trigger t[k]} :: 0 <= k < |s| && !(lo <= k < hi) ==> t[k] == s[k]
  }

  /**
  What a partial sort promises inside lo..hi: a pair of positions is in order
  as soon as one of the two lies in the wanted range left..right. So the wanted
  range is sorted, what precedes it is not above it, and what follows it is not
  below it.
  */
  ghost predicate Selected<T>(s: seq<T>, lo: nat, hi: nat, left: nat, right: nat, cmp: (T, T) -> int)
    requires hi <= |s|
  {
    forall i, j :: lo <= i < j < hi && (left <= i <= right || left <= j <= right) ==> cmp(s[i], s[j]) <= 0
  }

  ghost predicate Sorted<T>(s: seq<T>, lo: nat, hi: nat, cmp: (T, T) -> int)
    requires hi <= |s|
  {
    forall i, j :: lo <= i < j < hi ==> cmp(s[i], s[j]) <= 0
  }

  /** Everything in lo..mid is at most everything in mid..hi. */
  ghost predicate Below<T>(s: seq<T>, lo: nat, mid: nat, hi: nat, cmp: (T, T) -> int)
    requires hi <= |s|
  {
    forall i, j :: lo <= i < mid <= j < hi ==> cmp(s[i], s[j]) <= 0
  }

  /** The result of a partition: below, equal to and above the pivot `p`. */
  ghost predicate Split<T>(s: seq<T>, lo: nat, less: nat, more: nat, hi: nat, p: T, cmp: (T, T) -> int) {
    && lo <= less < more <= hi <= |s|
    && (forall k :: lo <= k < less ==> cmp(s[k], p) < 0)
    && (forall k :: less <= k < more ==> cmp(s[k], p) == 0)
    && (forall k :: more <= k < hi ==> cmp(s[k], p) > 0)
  }

  function Swapped<T>(s: seq<T>, i: nat, j: nat): (t: seq<T>)
    requires i < |s| && j < |s|
  {
    s[i := s[j]][j := s[i]]
  }

  lemma RearrangedSelf<T>(s: seq<T>, lo: nat, hi: nat)
    ensures Rearranged(s, s, lo, hi)
  {
  }

  lemma RearrangedSwap<T>(s: seq<T>, t: seq<T>, i: nat, j: nat, lo: nat, hi: nat)
    requires lo <= i < hi && lo <= j < hi && hi <= |t| && Rearranged(s, t, lo, hi)
    ensures Rearranged(s, Swapped(t, i, j), lo, hi)
  {
  }

  /** Every element of a rearranged part was there before. */
  lemma RearrangedOrigin<T>(s: seq<T>, t: seq<T>, lo: nat, hi: nat, k: nat) returns (k': nat)
    requires Rearranged(s, t, lo, hi) && lo <= k < hi <= |s|
    ensures lo <= k' < hi && t[k] == s[k']
  {
    var before, after := s[..lo], s[hi..];
    assert t[..lo] == before && t[hi..] == after by {
      forall k | 0 <= k < lo ensures t[k] == s[k] {}
      forall k | hi <= k < |s| ensures t[k] == s[k] {}
    }
    assert s == before + s[lo..hi] + after && t == before + t[lo..hi] + after;
    var x := t[k];
    assert t[lo..hi][k - lo] == x && x in multiset(t[lo..hi]);
    calc {
      multiset(before)[x] + multiset(s[lo..hi])[x] + multiset(after)[x];
      multiset(s)[x];
      multiset(t)[x];
      multiset(before)[x] + multiset(t[lo..hi])[x] + multiset(after)[x];
    }
    assert x in s[lo..hi];
    var i :| 0 <= i < |s[lo..hi]| && s[lo..hi][i] == x;
    k' := lo + i;
  }

  ghost predicate Exchanged<T>(s: seq<T>, t: seq<T>, i: nat, j: nat, r: nat) {
    && i + r <= j && j + r <= |s| == |t|
    && forall k {:trigger t[k]} :: 0 <= k < |s| ==>
      t[k] == if i <= k < i + r then s[k - i + j] else if j <= k < j + r then s[k - j + i] else s[k]
  }

  lemma ExchangedNone<T>(s: seq<T>, i: nat, j: nat, r: nat)
    requires i <= j && j + r <= |s|
    ensures Exchanged(s, s, i, j, 0) && Rearranged(s, s, i, j + r)
  {
  }

  lemma ExchangedStep<T>(s: seq<T>, t: seq<T>, i: nat, j: nat, k: nat)
    requires Exchanged(s, t, i, j, k) && i + k < j && j + k < |s|
    ensures Exchanged(s, Swapped(t, i + k, j + k), i, j, k + 1)
  {
  }

  /** The block swap `vecswap` of two ranges that do not overlap. */
  method VecSwap<T>(a: array<T>, i: nat, j: nat, r: nat)
    requires i + r <= j && j + r <= a.Length
    modifies a
    ensures Exchanged(old(a[..]), a[..], i, j, r)
    ensures Rearranged(old(a[..]), a[..], i, j + r)
  {
    hide Rearranged, Exchanged;
    ghost var s := a[..];
    ghost var t := s;
    ExchangedNone(s, i, j, r);
    for k := 0 to r
      invariant a[..] == t && |t| == |s|
      invariant Exchanged(s, t, i, j, k)
      invariant Rearranged(s, t, i, j + r)
    {
      ExchangedStep(s, t, i, j, k);
      RearrangedSwap(s, t, i + k, j + k, i, j + r);
      t := Swapped(t, i + k, j + k);
      a[i + k], a[j + k] := a[j + k], a[i + k];
    }
  }

  /** The state of the four cursors: equal, below, unseen, above, equal. */
  ghost predicate Cursors<T>(
      s: seq<T>, lo: nat, pa: nat, pb: nat, pc: int, pd: int, hi: nat, p: T, cmp: (T, T) -> int)
  {
    && lo < pa <= pb <= pc + 1 && pc <= pd < hi <= |s|
    && s[lo] == p
    && (forall k :: lo <= k < pa ==> cmp(s[k], p) == 0)
    && (forall k :: pa <= k < pb ==> cmp(s[k], p) < 0)
    && (forall k :: pc < k <= pd ==> cmp(s[k], p) > 0)
    && (forall k :: pd < k < hi ==> cmp(s[k], p) == 0)
  }

  /** The left cursor meets an element equal to the pivot, or below it. */
  lemma AdvanceUp<T>(t: seq<T>, lo: nat, pa: nat, pb: nat, pc: int, pd: int, hi: nat, p: T, cmp: (T, T) -> int)
    requires Cursors(t, lo, pa, pb, pc, pd, hi, p, cmp) && pb <= pc
    ensures cmp(t[pb], p) == 0 ==> Cursors(Swapped(t, pa, pb), lo, pa + 1, pb + 1, pc, pd, hi, p, cmp)
    ensures cmp(t[pb], p) < 0 ==> Cursors(t, lo, pa, pb + 1, pc, pd, hi, p, cmp)
  {
  }

  /** The right cursor meets an element equal to the pivot, or above it. */
  lemma AdvanceDown<T>(t: seq<T>, lo: nat, pa: nat, pb: nat, pc: int, pd: int, hi: nat, p: T, cmp: (T, T) -> int)
    requires Cursors(t, lo, pa, pb, pc, pd, hi, p, cmp) && pb <= pc
    ensures cmp(t[pc], p) == 0 ==> Cursors(Swapped(t, pc, pd), lo, pa, pb, pc - 1, pd - 1, hi, p, cmp)
    ensures cmp(t[pc], p) > 0 ==> Cursors(t, lo, pa, pb, pc - 1, pd, hi, p, cmp)
  {
  }

  /** Both cursors have stopped at elements on the wrong side. */
  lemma AdvanceBoth<T>(t: seq<T>, lo: nat, pa: nat, pb: nat, pc: int, pd: int, hi: nat, p: T, cmp: (T, T) -> int)
    requires Cursors(t, lo, pa, pb, pc, pd, hi, p, cmp) && pb <= pc
    requires cmp(t[pb], p) > 0 > cmp(t[pc], p)
    ensures Cursors(Swapped(t, pb, pc), lo, pa, pb + 1, pc - 1, pd, hi, p, cmp)
  {
  }

  /** The left cursor loop (pqsort.c:133-140): up to an element above the pivot. */
  method ScanUp<T>(a: array<T>, lo: nat, pa: nat, pb: nat, pc: int, pd: int, hi: nat, cmp: (T, T) -> int)
    returns (pa': nat, pb': nat, swapped: bool)
    requires lo < hi <= a.Length && Cursors(a[..], lo, pa, pb, pc, pd, hi, a[lo], cmp)
    modifies a
    ensures Cursors(a[..], lo, pa', pb', pc, pd, hi, old(a[lo]), cmp) && pb <= pb'
    ensures pb' <= pc ==> cmp(a[pb'], old(a[lo])) > 0
    ensures Rearranged(old(a[..]), a[..], lo, hi)
    ensures !swapped ==> a[..] == old(a[..])
  {
    hide Rearranged;
    ghost var s, p := a[..], a[lo];
    ghost var t := s;
    RearrangedSelf(s, lo, hi);
    pa', pb', swapped := pa, pb, false;
    while pb' <= pc && cmp(a[pb'], a[lo]) <= 0
      invariant a[..] == t && Cursors(t, lo, pa', pb', pc, pd, hi, p, cmp) && Rearranged(s, t, lo, hi)
      invariant pb <= pb' && (!swapped ==> t == s)
    {
      AdvanceUp(t, lo, pa', pb', pc, pd, hi, p, cmp);
      if cmp(a[pb'], a[lo]) == 0 {
        swapped := true;
        RearrangedSwap(s, t, pa', pb', lo, hi);
        t := Swapped(t, pa', pb');
        a[pa'], a[pb'] := a[pb'], a[pa'];
        pa' := pa' + 1;
      }
      pb' := pb' + 1;
    }
  }

  /** The right cursor loop (pqsort.c:141-148): down to an element below the pivot. */
  method ScanDown<T>(a: array<T>, lo: nat, pa: nat, pb: nat, pc: int, pd: int, hi: nat, cmp: (T, T) -> int)
    returns (pc': int, pd': int, swapped: bool)
    requires lo < hi <= a.Length && Cursors(a[..], lo, pa, pb, pc, pd, hi, a[lo], cmp)
    requires pb <= pc ==> cmp(a[pb], a[lo]) > 0
    modifies a
    ensures Cursors(a[..], lo, pa, pb, pc', pd', hi, old(a[lo]), cmp) && pc' <= pc
    ensures pb <= pc' ==> cmp(a[pb], old(a[lo])) > 0 > cmp(a[pc'], old(a[lo]))
    ensures Rearranged(old(a[..]), a[..], lo, hi)
    ensures !swapped ==> a[..] == old(a[..])
  {
    hide Rearranged;
    ghost var s, p := a[..], a[lo];
    ghost var t := s;
    RearrangedSelf(s, lo, hi);
    pc', pd', swapped := pc, pd, false;
    while pb <= pc' && cmp(a[pc'], a[lo]) >= 0
      invariant a[..] == t && Cursors(t, lo, pa, pb, pc', pd', hi, p, cmp) && Rearranged(s, t, lo, hi)
      invariant pb <= pc' ==> cmp(t[pb], p) > 0
      invariant pc' <= pc && (!swapped ==> t == s)
    {
      AdvanceDown(t, lo, pa, pb, pc', pd', hi, p, cmp);
      if cmp(a[pc'], a[lo]) == 0 {
        swapped := true;
        RearrangedSwap(s, t, pc', pd', lo, hi);
        t := Swapped(t, pc', pd');
        a[pc'], a[pd'] := a[pd'], a[pc'];
        pd' := pd' - 1;
      }
      pc' := pc' - 1;
    }
  }

  /** The cursor loops of pqsort.c:132-155 around the pivot in the first position;
      `moved` is swap_cnt. */
  method Scan<T>(a: array<T>, lo: nat, hi: nat, cmp: (T, T) -> int)
    returns (pa: nat, pb: nat, pc: int, pd: int, moved: bool)
    requires lo + 1 < hi <= a.Length && cmp(a[lo], a[lo]) == 0
    modifies a
    ensures Cursors(a[..], lo, pa, pb, pc, pd, hi, old(a[lo]), cmp) && pb == pc + 1
    ensures Rearranged(old(a[..]), a[..], lo, hi)
    ensures !moved ==> a[..] == old(a[..])
  {
    hide Rearranged, Cursors;
    ghost var s, p := a[..], a[lo];
    RearrangedSelf(s, lo, hi);
    moved := false;
    pa, pb := lo + 1, lo + 1;
    pc, pd := hi - 1, hi - 1;
    CursorsFirst(s, lo, hi, cmp);
    while true
      invariant Cursors(a[..], lo, pa, pb, pc, pd, hi, p, cmp) && Rearranged(s, a[..], lo, hi)
      invariant !moved ==> a[..] == s
      decreases pc - pb
    {
      CursorBounds(a[..], lo, pa, pb, pc, pd, hi, p, cmp);
      var swapped;
      ghost var t := a[..];
      pa, pb, swapped := ScanUp(a, lo, pa, pb, pc, pd, hi, cmp);
      moved := moved || swapped;
      RearrangedTrans(s, t, a[..], lo, hi, lo, hi);
      CursorBounds(a[..], lo, pa, pb, pc, pd, hi, p, cmp);
      t := a[..];
      pc, pd, swapped := ScanDown(a, lo, pa, pb, pc, pd, hi, cmp);
      moved := moved || swapped;
      RearrangedTrans(s, t, a[..], lo, hi, lo, hi);
      CursorBounds(a[..], lo, pa, pb, pc, pd, hi, p, cmp);
      if pb > pc {
        break;
      }
      t := a[..];
      AdvanceBoth(t, lo, pa, pb, pc, pd, hi, p, cmp);
      RearrangedSwap(s, t, pb, pc, lo, hi);
      a[pb], a[pc] := a[pc], a[pb];
      assert a[..] == Swapped(t, pb, pc);
      moved := true;
      pb := pb + 1;
      pc := pc - 1;
    }
  }

  lemma CursorsFirst<T>(s: seq<T>, lo: nat, hi: nat, cmp: (T, T) -> int)
    requires lo + 1 < hi <= |s| && cmp(s[lo], s[lo]) == 0
    ensures Cursors(s, lo, lo + 1, lo + 1, hi - 1, hi - 1, hi, s[lo], cmp)
  {
  }

  lemma CursorBounds<T>(s: seq<T>, lo: nat, pa: nat, pb: nat, pc: int, pd: int, hi: nat, p: T, cmp: (T, T) -> int)
    requires Cursors(s, lo, pa, pb, pc, pd, hi, p, cmp)
    ensures lo < pa <= pb <= pc + 1 && pc <= pd < hi <= |s| && s[lo] == p
  {
  }

  lemma RearrangedTrans<T>(s: seq<T>, t: seq<T>, u: seq<T>, lo: nat, hi: nat, lo': nat, hi': nat)
    requires Rearranged(s, t, lo, hi) && Rearranged(t, u, lo', hi') && lo <= lo' && hi' <= hi
    ensures Rearranged(s, u, lo, hi)
  {
  }

  /** Exchanging a block of `r` elements at each end of i..e, where i..m and m..e
      are of two kinds and r is the size of the smaller part, swaps the parts. */
  lemma PartsSwapped<T>(s: seq<T>, t: seq<T>, i: nat, m: nat, e: nat, r: nat, k: nat)
    requires i <= m <= e <= |s| && r == (if m - i < e - m then m - i else e - m)
    requires Exchanged(s, t, i, e - r, r) && i <= k < e
    ensures k < i + (e - m) ==> exists k' :: m <= k' < e && t[k] == s[k']
    ensures k >= i + (e - m) ==> exists k' :: i <= k' < m && t[k] == s[k']
  {
    if k < i + r {
      assert t[k] == s[k - i + (e - r)];
    } else if k >= e - r {
      assert t[k] == s[k - (e - r) + i];
    } else {
      assert t[k] == s[k];
    }
  }

  /** The two block swaps turn the cursor layout into below, equal, above. */
  lemma SplitByBlocks<T>(s: seq<T>, t: seq<T>, u: seq<T>, lo: nat, pa: nat, pb: nat, pc: int, pd: int, hi: nat,
                         r0: nat, r1: nat, p: T, cmp: (T, T) -> int)
    requires Cursors(s, lo, pa, pb, pc, pd, hi, p, cmp) && pb == pc + 1
    requires r0 == (if pa - lo < pb - pa then pa - lo else pb - pa) && Exchanged(s, t, lo, pb - r0, r0)
    requires r1 == (if pd - pc < hi - pd - 1 then pd - pc else hi - pd - 1) && Exchanged(t, u, pb, hi - r1, r1)
    ensures Split(u, lo, lo + (pb - pa), hi - (pd - pc), hi, p, cmp)
  {
    forall k | lo <= k < hi
      ensures k < lo + (pb - pa) ==> cmp(u[k], p) < 0
      ensures lo + (pb - pa) <= k < hi - (pd - pc) ==> cmp(u[k], p) == 0
      ensures hi - (pd - pc) <= k ==> cmp(u[k], p) > 0
    {
      if k < pb {
        PartsSwapped(s, t, lo, pa, pb, r0, k);
        assert u[k] == t[k];
      } else {
        PartsSwapped(t, u, pb, pd + 1, hi, r1, k);
        assert forall k' {:trigger t[k']} :: pb <= k' < hi ==> t[k'] == s[k'];
      }
    }
  }

  /** Partitions lo..hi around the pivot in its first position (pqsort.c:129-168).
      Without any movement the segment is left to insertion sort, as is. */
  method Partition<T>(a: array<T>, lo: nat, hi: nat, cmp: (T, T) -> int)
    returns (less: nat, more: nat, moved: bool)
    requires lo + 1 < hi <= a.Length && cmp(a[lo], a[lo]) == 0
    modifies a
    ensures Rearranged(old(a[..]), a[..], lo, hi)
    ensures moved ==> Split(a[..], lo, less, more, hi, old(a[lo]), cmp)
  {
    hide Rearranged, Exchanged, Split, Cursors;
    ghost var s0 := a[..];
    var pa, pb, pc, pd;
    pa, pb, pc, pd, moved := Scan(a, lo, hi, cmp);
    less, more := lo, hi;
    if moved {
      CursorBounds(a[..], lo, pa, pb, pc, pd, hi, s0[lo], cmp);
      ghost var s1 := a[..];
      var r0 := if pa - lo < pb - pa then pa - lo else pb - pa;
      VecSwap(a, lo, pb - r0, r0);
      ghost var s2 := a[..];
      var r1 := if pd - pc < hi - pd - 1 then pd - pc else hi - pd - 1;
      VecSwap(a, pb, hi - r1, r1);
      less, more := lo + (pb - pa), hi - (pd - pc);
      SplitByBlocks(s1, s2, a[..], lo, pa, pb, pc, pd, hi, r0, r1, s0[lo], cmp);
      RearrangedTrans(s0, s1, s2, lo, hi, lo, pb);
      RearrangedTrans(s0, s2, a[..], lo, hi, pb, hi);
    }
  }

  /** In order except that the element at `at` may be too small for its place. */
  ghost predicate SortedBut<T>(s: seq<T>, lo: nat, at: nat, hi: nat, cmp: (T, T) -> int)
    requires hi <= |s|
  {
    forall i, j :: lo <= i < j < hi && j != at ==> cmp(s[i], s[j]) <= 0
  }

  lemma SinkStep<T(!new)>(s: seq<T>, lo: nat, at: nat, hi: nat, cmp: (T, T) -> int)
    requires TotalPreorder(cmp) && lo < at < hi <= |s| && SortedBut(s, lo, at, hi, cmp)
    ensures cmp(s[at - 1], s[at]) > 0 ==> SortedBut(Swapped(s, at, at - 1), lo, at - 1, hi, cmp)
    ensures cmp(s[at - 1], s[at]) <= 0 ==> Sorted(s, lo, hi, cmp)
  {
    var t := Swapped(s, at, at - 1);
    if cmp(s[at - 1], s[at]) > 0 {
      forall i, j | lo <= i < j < hi && j != at - 1 ensures cmp(t[i], t[j]) <= 0 {
        if i == at - 1 && j == at {
          assert cmp(s[at], s[at - 1]) <= 0;
        }
      }
    } else {
      forall i, j | lo <= i < j < hi ensures cmp(s[i], s[j]) <= 0 {
        if j == at && i < at - 1 {
          assert cmp(s[i], s[at - 1]) <= 0;
        }
      }
    }
  }

  /** The insertion sort of pqsort.c:110-113 and 157-160. */
  method InsertionSort<T(!new)>(a: array<T>, lo: nat, hi: nat, cmp: (T, T) -> int)
    requires TotalPreorder(cmp) && lo <= hi <= a.Length
    modifies a
    ensures Rearranged(old(a[..]), a[..], lo, hi)
    ensures Sorted(a[..], lo, hi, cmp)
  {
    hide Rearranged, TotalPreorder;
    ghost var s, t := a[..], a[..];
    RearrangedSelf(s, lo, hi);
    var pm := lo + 1;
    while pm < hi
      invariant lo < pm && (pm <= hi || pm == lo + 1)
      invariant a[..] == t && Rearranged(s, t, lo, hi)
      invariant pm <= hi ==> Sorted(t, lo, pm, cmp)
    {
      var pl := pm;
      while pl > lo && cmp(a[pl - 1], a[pl]) > 0
        invariant lo <= pl <= pm
        invariant a[..] == t && Rearranged(s, t, lo, hi)
        invariant SortedBut(t, lo, pl, pm + 1, cmp)
      {
        SinkStep(t, lo, pl, pm + 1, cmp);
        RearrangedSwap(s, t, pl, pl - 1, lo, hi);
        t := Swapped(t, pl, pl - 1);
        a[pl], a[pl - 1] := a[pl - 1], a[pl];
        pl := pl - 1;
      }
      if pl > lo {
        SinkStep(t, lo, pl, pm + 1, cmp);
      }
      pm := pm + 1;
    }
  }

  /** med3: of three positions, one whose element is a median of the three. */
  method Med3<T(!new)>(a: array<T>, x: nat, y: nat, z: nat, cmp: (T, T) -> int) returns (m: nat)
    requires x < a.Length && y < a.Length && z < a.Length && TotalPreorder(cmp)
    ensures m == x || m == y || m == z
    ensures exists u: nat, v: nat {:trigger Spread(x, y, z, u, m, v)} ::
      Spread(x, y, z, u, m, v) && u < a.Length && v < a.Length && cmp(a[u], a[m]) <= 0 && cmp(a[m], a[v]) <= 0
  {
    var low: nat, high: nat;
    if cmp(a[x], a[y]) < 0 {
      if cmp(a[y], a[z]) < 0 {
        low, m, high := x, y, z;
      } else if cmp(a[x], a[z]) < 0 {
        low, m, high := x, z, y;
      } else {
        low, m, high := z, x, y;
      }
    } else {
      if cmp(a[y], a[z]) > 0 {
        low, m, high := z, y, x;
      } else if cmp(a[x], a[z]) < 0 {
        low, m, high := y, x, z;
      } else {
        low, m, high := y, z, x;
      }
    }
    assert Spread(x, y, z, low, m, high);
  }

  /** `u, m, v` are `x, y, z` in some order. */
  ghost predicate Spread(x: nat, y: nat, z: nat, u: nat, m: nat, v: nat) {
    multiset{x, y, z} == multiset{u, m, v}
  }

  /** The pivot position of pqsort.c:116-127. */
  method Pivot<T(!new)>(a: array<T>, lo: nat, hi: nat, cmp: (T, T) -> int) returns (pm: nat)
    requires lo + 7 <= hi <= a.Length && TotalPreorder(cmp)
    ensures lo <= pm < hi
  {
    var n := hi - lo;
    pm := lo + n / 2;
    if n > 7 {
      var pl, pn := lo, lo + (n - 1);
      if n > 40 {
        var d := n / 8;
        pl := Med3(a, pl, pl + d, pl + 2 * d, cmp);
        pm := Med3(a, pm - d, pm, pm + d, cmp);
        pn := Med3(a, pn - 2 * d, pn - d, pn, cmp);
      }
      pm := Med3(a, pl, pm, pn, cmp);
    }
  }

  /** The test of pqsort.c:171-172 and 184-185: does lo..hi meet the wanted range? */
  predicate Wanted(lo: nat, hi: nat, left: nat, right: nat) {
    !((left < lo && right < lo) || (left >= hi && right >= hi))
  }

  /** A part that is not wanted, or has at most one element, needs no work. */
  lemma NothingToDo<T>(s: seq<T>, lo: nat, hi: nat, left: nat, right: nat, cmp: (T, T) -> int)
    requires hi <= |s| && (hi <= lo + 1 || !Wanted(lo, hi, left, right))
    ensures Selected(s, lo, hi, left, right, cmp)
  {
  }

  /** Rearranging lo..hi disturbs neither what is done before it nor its bound. */
  lemma DoneStays<T>(s: seq<T>, t: seq<T>, start: nat, lo: nat, hi: nat, left: nat, right: nat, cmp: (T, T) -> int)
    requires start <= lo <= hi <= |s| && Rearranged(s, t, lo, hi)
    requires Selected(s, start, lo, left, right, cmp) && Below(s, start, lo, hi, cmp)
    ensures Selected(t, start, lo, left, right, cmp) && Below(t, start, lo, hi, cmp)
  {
    forall i, j | start <= i < lo <= j < hi ensures cmp(t[i], t[j]) <= 0 {
      var j' := RearrangedOrigin(s, t, lo, hi, j);
      assert cmp(s[i], s[j']) <= 0;
    }
  }

  /** Rearranging the elements below the pivot keeps the split. */
  lemma SplitStays<T>(s: seq<T>, t: seq<T>, lo: nat, less: nat, more: nat, hi: nat, p: T, cmp: (T, T) -> int)
    requires Split(s, lo, less, more, hi, p, cmp) && Rearranged(s, t, lo, less)
    ensures Split(t, lo, less, more, hi, p, cmp)
  {
    forall k | lo <= k < less ensures cmp(t[k], p) < 0 {
      var k' := RearrangedOrigin(s, t, lo, less, k);
    }
  }

  /** With the part below the pivot done, everything before `more` is done. */
  lemma SplitDone<T(!new)>(s: seq<T>, start: nat, lo: nat, less: nat, more: nat, hi: nat, p: T,
                           left: nat, right: nat, cmp: (T, T) -> int)
    requires TotalPreorder(cmp) && start <= lo && Split(s, lo, less, more, hi, p, cmp)
    requires Selected(s, start, lo, left, right, cmp) && Below(s, start, lo, hi, cmp)
    requires Selected(s, lo, less, left, right, cmp)
    ensures Selected(s, start, more, left, right, cmp) && Below(s, start, more, hi, cmp)
  {
    forall i, j | lo <= i < j < hi && less <= j && i < more ensures cmp(s[i], s[j]) <= 0 {
      assert cmp(s[i], p) <= 0 && cmp(p, s[j]) <= 0;
    }
  }

  /** Two neighbouring parts that are done, the first below the second. */
  lemma Joined<T>(s: seq<T>, start: nat, lo: nat, hi: nat, left: nat, right: nat, cmp: (T, T) -> int)
    requires start <= lo <= hi <= |s|
    requires Selected(s, start, lo, left, right, cmp) && Below(s, start, lo, hi, cmp)
    requires Selected(s, lo, hi, left, right, cmp)
    ensures Selected(s, start, hi, left, right, cmp)
  {
  }

  /** One pass of the code between `loop:` and `goto loop` (pqsort.c:107-187):
      sorts or partitions lo..hi, descends below the pivot, and returns where
      the part above it starts, or `hi` when nothing is left to do. */
  method Round<T(!new)>(a: array<T>, ghost start: nat, lo: nat, hi: nat, cmp: (T, T) -> int, left: nat, right: nat,
                        ghost s: seq<T>)
    returns (more: nat)
    requires TotalPreorder(cmp) && start <= lo <= hi <= a.Length && Rearranged(s, a[..], start, hi)
    requires Selected(a[..], start, lo, left, right, cmp) && Below(a[..], start, lo, hi, cmp)
    modifies a
    ensures more <= hi && (lo < more || more == hi)
    ensures Rearranged(s, a[..], start, hi)
    ensures Selected(a[..], start, more, left, right, cmp) && Below(a[..], start, more, hi, cmp)
    decreases hi - lo, 0
  {
    hide Rearranged, Selected, Below, Split, Sorted, Wanted, TotalPreorder;
    ghost var t0 := a[..];
    if hi - lo < 7 {
      InsertionSort(a, lo, hi, cmp);
      SegmentSorted(s, t0, a[..], start, lo, hi, left, right, cmp);
      return hi;
    }
    var less, moved;
    ghost var p;
    less, more, moved, p := PartitionAroundMedian(a, lo, hi, cmp);
    ghost var t2 := a[..];
    if !moved {
      InsertionSort(a, lo, hi, cmp);
      RearrangedTrans(t0, t2, a[..], lo, hi, lo, hi);
      SegmentSorted(s, t0, a[..], start, lo, hi, left, right, cmp);
      return hi;
    }
    SplitBounds(t2, lo, less, more, hi, p, cmp);
    if less - lo > 1 && Wanted(lo, less, left, right) {
      SortSegment(a, lo, less, cmp, left, right);
      SplitStays(t2, a[..], lo, less, more, hi, p, cmp);
      RearrangedTrans(t0, t2, a[..], lo, hi, lo, less);
    } else {
      NothingToDo(t2, lo, less, left, right, cmp);
    }
    RearrangedTrans(s, t0, a[..], start, hi, lo, hi);
    DoneStays(t0, a[..], start, lo, hi, left, right, cmp);
    SplitDone(a[..], start, lo, less, more, hi, p, left, right, cmp);
    if hi - more > 1 && Wanted(more, hi, left, right) {
      return more;
    }
    NothingToDo(a[..], more, hi, left, right, cmp);
    Joined(a[..], start, more, hi, left, right, cmp);
    NothingAbove(a[..], start, hi, cmp);
    return hi;
  }

  /** Moves the chosen pivot to the front and partitions (pqsort.c:116-168). */
  method PartitionAroundMedian<T(!new)>(a: array<T>, lo: nat, hi: nat, cmp: (T, T) -> int)
    returns (less: nat, more: nat, moved: bool, ghost p: T)
    requires TotalPreorder(cmp) && lo + 7 <= hi <= a.Length
    modifies a
    ensures Rearranged(old(a[..]), a[..], lo, hi)
    ensures moved ==> Split(a[..], lo, less, more, hi, p, cmp)
  {
    hide Rearranged, Split, TotalPreorder;
    ghost var t := a[..];
    var pm := Pivot(a, lo, hi, cmp);
    ghost var t1 := Swapped(t, lo, pm);
    a[lo], a[pm] := a[pm], a[lo];
    assert a[..] == t1;
    RearrangedSelf(t, lo, hi);
    RearrangedSwap(t, t, lo, pm, lo, hi);
    SelfCompare(cmp, a[lo]);
    p := a[lo];
    less, more, moved := Partition(a, lo, hi, cmp);
    RearrangedTrans(t, t1, a[..], lo, hi, lo, hi);
  }

  lemma NothingAbove<T>(s: seq<T>, lo: nat, hi: nat, cmp: (T, T) -> int)
    requires hi <= |s|
    ensures Below(s, lo, hi, hi, cmp)
  {
  }

  /** Sorting the whole rest of the segment finishes it. */
  lemma SegmentSorted<T>(s: seq<T>, t: seq<T>, u: seq<T>, start: nat, lo: nat, hi: nat, left: nat, right: nat,
                         cmp: (T, T) -> int)
    requires start <= lo <= hi <= |t| && Rearranged(s, t, start, hi) && Rearranged(t, u, lo, hi)
    requires Selected(t, start, lo, left, right, cmp) && Below(t, start, lo, hi, cmp)
    requires |u| == |t| && Sorted(u, lo, hi, cmp)
    ensures Rearranged(s, u, start, hi)
    ensures Selected(u, start, hi, left, right, cmp) && Below(u, start, hi, hi, cmp)
  {
    DoneStays(t, u, start, lo, hi, left, right, cmp);
  }

  lemma SplitBounds<T>(s: seq<T>, lo: nat, less: nat, more: nat, hi: nat, p: T, cmp: (T, T) -> int)
    requires Split(s, lo, less, more, hi, p, cmp)
    ensures lo <= less < more <= hi
  {
  }

  lemma SelfCompare<T(!new)>(cmp: (T, T) -> int, x: T)
    requires TotalPreorder(cmp)
    ensures cmp(x, x) == 0
  {
  }

  /** _pqsort on the segment start..hi. */
  method SortSegment<T(!new)>(a: array<T>, start: nat, hi: nat, cmp: (T, T) -> int, left: nat, right: nat)
    requires TotalPreorder(cmp) && start <= hi <= a.Length
    modifies a
    ensures Rearranged(old(a[..]), a[..], start, hi)
    ensures Selected(a[..], start, hi, left, right, cmp)
    decreases hi - start, 1
  {
    hide Rearranged, Selected, Below, Split, Sorted;
    ghost var s := a[..];
    var lo := start;
    RearrangedSelf(s, start, hi);
    assert Selected(s, start, start, left, right, cmp) by { NothingToDo(s, start, start, left, right, cmp); }
    NothingBelow(s, start, hi, cmp);
    while true
      invariant start <= lo <= hi && Rearranged(s, a[..], start, hi)
      invariant Selected(a[..], start, lo, left, right, cmp) && Below(a[..], start, lo, hi, cmp)
      decreases hi - lo
    {
      var more := Round(a, start, lo, hi, cmp, left, right, s);
      lo := more;
      if lo == hi {
        return;
      }
    }
  }

  lemma NothingBelow<T>(s: seq<T>, lo: nat, hi: nat, cmp: (T, T) -> int)
    requires hi <= |s|
    ensures Below(s, lo, lo, hi, cmp)
  {
  }

  /** pqsort: afterwards the elements at positions left..right are those a full
      sort would put there. */
  method PartialSort<T(!new)>(a: array<T>, cmp: (T, T) -> int, left: nat, right: nat)
    requires TotalPreorder(cmp)
    modifies a
    ensures multiset(a[..]) == multiset(old(a[..]))
    ensures Selected(a[..], 0, a.Length, left, right, cmp)
  {
    SortSegment(a, 0, a.Length, cmp, left, right);
  }

  /** The number of elements below `x`. */
  ghost function CountBelow<T>(s: seq<T>, x: T, cmp: (T, T) -> int): nat {
    if s == [] then 0
    else CountBelow(s[..|s| - 1], x, cmp) + (if cmp(s[|s| - 1], x) < 0 then 1 else 0)
  }

  lemma {:induction false} CountAtLeast<T>(s: seq<T>, x: T, n: nat, cmp: (T, T) -> int)
    requires n <= |s| && forall i :: 0 <= i < n ==> cmp(s[i], x) < 0
    ensures CountBelow(s, x, cmp) >= n
  {
    if n > 0 {
      CountAtLeast(s[..|s| - 1], x, if n == |s| then n - 1 else n, cmp);
    }
  }

  lemma {:induction false} CountAtMost<T>(s: seq<T>, x: T, n: nat, cmp: (T, T) -> int)
    requires forall i :: n <= i < |s| ==> cmp(s[i], x) >= 0
    ensures CountBelow(s, x, cmp) <= n
  {
    if s != [] {
      if |s| <= n {
        CountAtMost(s[..|s| - 1], x, n - 1, cmp);
      } else {
        CountAtMost(s[..|s| - 1], x, n, cmp);
      }
    }
  }

  lemma {:induction false} CountConcat<T>(s: seq<T>, t: seq<T>, x: T, cmp: (T, T) -> int)
    ensures CountBelow(s + t, x, cmp) == CountBelow(s, x, cmp) + CountBelow(t, x, cmp)
  {
    if t == [] {
      assert s + t == s;
    } else {
      assert (s + t)[..|s + t| - 1] == s + t[..|t| - 1];
      CountConcat(s, t[..|t| - 1], x, cmp);
    }
  }

  lemma {:induction false} CountSame<T>(s: seq<T>, t: seq<T>, x: T, cmp: (T, T) -> int)
    requires multiset(s) == multiset(t)
    ensures CountBelow(s, x, cmp) == CountBelow(t, x, cmp)
  {
    if s != [] {
      var i := TakeOut(s, t);
      var last := s[|s| - 1];
      CountSame(s[..|s| - 1], t[..i] + t[i + 1..], x, cmp);
      assert t == t[..i] + [last] + t[i + 1..];
      CountConcat(t[..i], t[i + 1..], x, cmp);
      CountConcat(t[..i] + [last], t[i + 1..], x, cmp);
      CountConcat(t[..i], [last], x, cmp);
    }
  }

  lemma TakeOut<T>(s: seq<T>, t: seq<T>) returns (i: nat)
    requires s != [] && multiset(s) == multiset(t)
    ensures i < |t| && t[i] == s[|s| - 1]
    ensures multiset(s[..|s| - 1]) == multiset(t[..i] + t[i + 1..])
  {
    var last := s[|s| - 1];
    assert last in multiset(t);
    i :| 0 <= i < |t| && t[i] == last;
    assert s == s[..|s| - 1] + [last];
    assert t == t[..i] + [last] + t[i + 1..];
    assert multiset(s[..|s| - 1]) == multiset(s) - multiset{last};
    assert multiset(t[..i] + t[i + 1..]) == multiset(t) - multiset{last};
  }

  /** At the wanted positions a partial sort agrees with every full sort. */
  lemma SliceAgreesWithSort<T(!new)>(s: seq<T>, t: seq<T>, left: nat, right: nat, k: nat, cmp: (T, T) -> int)
    requires TotalPreorder(cmp) && multiset(s) == multiset(t) && |s| == |t|
    requires Selected(s, 0, |s|, left, right, cmp) && Sorted(t, 0, |t|, cmp)
    requires left <= k <= right && k < |s|
    ensures cmp(s[k], t[k]) == 0
  {
    SelfCompare(cmp, s[k]);
    SelfCompare(cmp, t[k]);
    if cmp(s[k], t[k]) < 0 {
      BelowUpTo(s, k, t[k], cmp);
      CountAtLeast(s, t[k], k + 1, cmp);
      NotBelowFrom(t, k, cmp);
      CountAtMost(t, t[k], k, cmp);
      CountSame(s, t, t[k], cmp);
    } else if cmp(t[k], s[k]) < 0 {
      BelowUpTo(t, k, s[k], cmp);
      CountAtLeast(t, s[k], k + 1, cmp);
      NotBelowFrom(s, k, cmp);
      CountAtMost(s, s[k], k, cmp);
      CountSame(s, t, s[k], cmp);
    }
  }

  lemma BelowUpTo<T(!new)>(s: seq<T>, k: nat, x: T, cmp: (T, T) -> int)
    requires TotalPreorder(cmp) && k < |s| && cmp(s[k], x) < 0
    requires forall i :: 0 <= i <= k ==> cmp(s[i], s[k]) <= 0
    ensures forall i :: 0 <= i < k + 1 ==> cmp(s[i], x) < 0
  {
    forall i | 0 <= i < k + 1 ensures cmp(s[i], x) < 0 {
      if cmp(x, s[i]) <= 0 {
        assert false;
      }
    }
  }

  lemma NotBelowFrom<T(!new)>(s: seq<T>, k: nat, cmp: (T, T) -> int)
    requires TotalPreorder(cmp) && k < |s| && forall j :: k < j < |s| ==> cmp(s[k], s[j]) <= 0
    ensures forall j :: k <= j < |s| ==> cmp(s[j], s[k]) >= 0
  {
    SelfCompare(cmp, s[k]);
    forall j | k <= j < |s| ensures cmp(s[j], s[k]) >= 0 {
      if j > k {
        assert cmp(s[k], s[j]) <= 0;
      }
    }
  }
}
