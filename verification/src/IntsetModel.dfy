/** The bytes of an integer set (intset.c): values of a fixed width, little-endian,
    in two's complement, one behind the other. */
module IntsetModel {
  import opened Common

  /** INTSET_ENC_INT16, INTSET_ENC_INT32, INTSET_ENC_INT64. */
  predicate IsEnc(enc: nat) { enc == 2 || enc == 4 || enc == 8 }

  function Half(enc: nat): (h: nat)
    ensures h > 0
  {
    if enc == 2 then 0x8000 else if enc == 4 then 0x8000_0000 else 0x8000_0000_0000_0000
  }

  predicate Fits(v: int, enc: nat) { -(Half(enc) as int) <= v < Half(enc) }

  /** _intsetValueEncoding: the smallest width that holds the value. */
  function ValueEncoding(v: int): (enc: nat)
    requires Fits(v, 8)
    ensures IsEnc(enc) && Fits(v, enc)
    ensures forall e :: IsEnc(e) && Fits(v, e) ==> enc <= e
  {
    if v < -0x8000_0000 || v > 0x7fff_ffff then 8 else if v < -0x8000 || v > 0x7fff then 4 else 2
  }

  /** The lowest `k` bytes of a number in two's complement, the lowest first. */
  function LeBytes(v: int, k: nat): (b: bytes)
    ensures |b| == k
    decreases k
  {
    if k == 0 then [] else [v % 256] + LeBytes(v / 256, k - 1)
  }

  function LeValue(b: bytes): nat {
    if b == [] then 0 else b[0] as int + 256 * LeValue(b[1..])
  }

  function Pow256(k: nat): (p: nat)
    ensures p > 0
  {
    if k == 0 then 1 else 256 * Pow256(k - 1)
  }

  /** Reading back gives the number, up to a multiple of 256^k. */
  lemma {:induction false} LeRoundTrip(v: int, k: nat) returns (q: int)
    ensures LeValue(LeBytes(v, k)) == v - q * Pow256(k)
    ensures LeValue(LeBytes(v, k)) < Pow256(k)
    decreases k
  {
    if k == 0 {
      q := v;
    } else {
      var b := LeBytes(v, k);
      assert b[1..] == LeBytes(v / 256, k - 1) && b[0] == v % 256;
      q := LeRoundTrip(v / 256, k - 1);
      var p := Pow256(k - 1);
      assert 256 * (v / 256 - q * p) == 256 * (v / 256) - q * (256 * p);
    }
  }

  lemma Pow256Is(enc: nat)
    requires IsEnc(enc)
    ensures Pow256(enc) == 2 * Half(enc)
  {
    assert Pow256(2) == 0x1_0000;
    assert Pow256(4) == 0x1_0000_0000;
    assert Pow256(6) == 0x1_0000_0000_0000;
    assert Pow256(8) == 0x1_0000_0000_0000_0000;
  }

  lemma SignedBack(v: int, enc: nat)
    requires IsEnc(enc) && Fits(v, enc)
    ensures Signed(LeValue(LeBytes(v, enc)), Half(enc)) == v
  {
    var q := LeRoundTrip(v, enc);
    Pow256Is(enc);
    hide LeBytes, LeValue, Pow256, Half;
    var h := Half(enc);
    Multiple(q, 2 * h);
  }

  lemma Multiple(q: int, p: int)
    requires p >= 0
    ensures q >= 1 ==> q * p >= p
    ensures q <= -2 ==> q * p <= -2 * p
    ensures q == -1 ==> q * p == -p
  {
  }

  // ---- values in place ------------------------------------------------------

  /** Where value number `p` starts. */
  function Off(enc: nat, p: nat): nat { p * enc }

  function Value(b: bytes, enc: nat, p: nat): int {
    if Off(enc, p) + enc <= |b| then Signed(LeValue(b[Off(enc, p)..Off(enc, p) + enc]), Half(enc)) else 0
  }

  function Values(b: bytes, enc: nat, n: nat): (s: seq<int>)
    ensures |s| == n && forall i :: 0 <= i < n ==> s[i] == Value(b, enc, i)
  {
    seq(n, i requires 0 <= i < n => Value(b, enc, i))
  }

  /** `bs` written over `b` from `at` on. */
  function Put(b: bytes, at: nat, bs: bytes): (r: bytes)
    requires at + |bs| <= |b|
    ensures |r| == |b|
  {
    b[..at] + bs + b[at + |bs|..]
  }

  lemma OffApart(enc: nat, p: nat, q: nat)
    requires IsEnc(enc)
    ensures Off(enc, p + 1) == Off(enc, p) + enc && Off(enc, 0) == 0
    ensures p < q ==> Off(enc, p) + enc <= Off(enc, q)
    ensures p <= q ==> Off(enc, p) <= Off(enc, q) && Off(enc, q) - Off(enc, p) == Off(enc, q - p)
  {
    if enc == 2 {} else if enc == 4 {} else {}
  }

  /** A value of a larger width starts no earlier. */
  lemma OffWider(enc: nat, wide: nat, p: nat)
    requires IsEnc(enc) && IsEnc(wide) && enc <= wide
    ensures Off(enc, p) <= Off(wide, p)
  {
    if enc == 2 { if wide == 2 {} else if wide == 4 {} else {} }
    else if enc == 4 { if wide == 4 {} else {} }
  }

  lemma SliceOutside(b: bytes, at: nat, bs: bytes, lo: nat, hi: nat)
    requires at + |bs| <= |b| && lo <= hi <= |b| && (hi <= at || at + |bs| <= lo)
    ensures Put(b, at, bs)[lo..hi] == b[lo..hi]
  {
    var r := Put(b, at, bs);
    assert forall k :: lo <= k < hi ==> r[k] == b[k];
  }

  lemma SliceInside(b: bytes, at: nat, bs: bytes, lo: nat, hi: nat)
    requires at + |bs| <= |b| && at <= lo <= hi <= at + |bs|
    ensures Put(b, at, bs)[lo..hi] == bs[lo - at..hi - at]
  {
    var r := Put(b, at, bs);
    assert forall k :: lo <= k < hi ==> r[k] == bs[k - at];
  }

  /** Storing a value changes that value and no other. */
  lemma PutValue(b: bytes, enc: nat, p: nat, v: int, q: nat)
    requires IsEnc(enc) && Fits(v, enc) && Off(enc, p) + enc <= |b|
    ensures Value(Put(b, Off(enc, p), LeBytes(v, enc)), enc, q) == if q == p then v else Value(b, enc, q)
  {
    hide LeBytes, LeValue, Signed, Off, Fits, Put;
    var bs := LeBytes(v, enc);
    OffApart(enc, p, q);
    OffApart(enc, q, p);
    if q == p {
      SignedBack(v, enc);
      SliceInside(b, Off(enc, p), bs, Off(enc, p), Off(enc, p) + enc);
      assert bs[0..enc] == bs;
    } else if Off(enc, q) + enc <= |b| {
      SliceOutside(b, Off(enc, p), bs, Off(enc, q), Off(enc, q) + enc);
    }
  }

  /** Storing a wide value leaves the narrow ones that lie before it. */
  lemma PutBeyond(b: bytes, at: nat, bs: bytes, enc: nat, q: nat)
    requires IsEnc(enc) && at + |bs| <= |b| && Off(enc, q) + enc <= at
    ensures Value(Put(b, at, bs), enc, q) == Value(b, enc, q)
  {
    hide LeValue, Signed, Off, Put;
    SliceOutside(b, at, bs, Off(enc, q), Off(enc, q) + enc);
  }

  /** The bytes that intsetMoveTail moves: values `from` to `n`, to place `to`. */
  function Moved(b: bytes, enc: nat, from: nat, n: nat, to: nat): (r: bytes)
    requires from <= n && Off(enc, from) <= Off(enc, n) <= |b|
    requires Off(enc, to) + (Off(enc, n) - Off(enc, from)) <= |b|
    ensures |r| == |b|
  {
    Put(b, Off(enc, to), b[Off(enc, from)..Off(enc, n)])
  }

  lemma SubSlice(b: bytes, x: nat, y: nat, lo: nat, hi: nat)
    requires x <= y <= |b| && lo <= hi <= y - x
    ensures b[x..y][lo..hi] == b[x + lo..x + hi]
  {
    var l, r := b[x..y][lo..hi], b[x + lo..x + hi];
    forall i | 0 <= i < hi - lo ensures l[i] == r[i] {}
  }

  lemma MovedValue(b: bytes, enc: nat, from: nat, n: nat, to: nat, q: nat)
    requires IsEnc(enc) && from <= n && Off(enc, from) <= Off(enc, n) <= |b|
    requires Off(enc, to) + (Off(enc, n) - Off(enc, from)) <= |b|
    ensures Value(Moved(b, enc, from, n, to), enc, q) ==
      if to <= q < to + (n - from) then Value(b, enc, from + (q - to)) else Value(b, enc, q)
  {
    hide LeValue, Signed, Off, Put;
    var at, bs := Off(enc, to), b[Off(enc, from)..Off(enc, n)];
    OffApart(enc, from, n);
    var end := to + (n - from);
    OffApart(enc, to, end);
    assert end - to == n - from;
    if to <= q < to + (n - from) {
      var k := from + (q - to);
      OffApart(enc, k, n);
      OffApart(enc, to, q);
      OffApart(enc, from, k);
      OffApart(enc, q, end);
      SliceInside(b, at, bs, Off(enc, q), Off(enc, q) + enc);
      var lo := Off(enc, q) - at;
      assert q - to == k - from;
      assert Off(enc, from) + lo == Off(enc, k);
      SubSlice(b, Off(enc, from), Off(enc, n), lo, lo + enc);
    } else if Off(enc, q) + enc <= |b| {
      OffApart(enc, q, to);
      OffApart(enc, end, q);
      SliceOutside(b, at, bs, Off(enc, q), Off(enc, q) + enc);
    }
  }

  // ---- sorted sequences -----------------------------------------------------

  predicate Sorted(s: seq<int>) {
    forall i, j :: 0 <= i < j < |s| ==> s[i] < s[j]
  }

  function Elements(s: seq<int>): set<int> {
    set x | x in s
  }

  function Insert(s: seq<int>, p: nat, v: int): (r: seq<int>)
    requires p <= |s|
    ensures |r| == |s| + 1
  {
    s[..p] + [v] + s[p..]
  }

  function Delete(s: seq<int>, p: nat): (r: seq<int>)
    requires p < |s|
    ensures |r| == |s| - 1
  {
    s[..p] + s[p + 1..]
  }

  /** `p` is where `v` belongs in `s`, which does not hold it. */
  predicate Gap(s: seq<int>, p: nat, v: int) {
    p <= |s| && (forall i :: 0 <= i < p ==> s[i] < v) && (forall i :: p <= i < |s| ==> v < s[i])
  }

  lemma GapInsert(s: seq<int>, p: nat, v: int)
    requires Sorted(s) && Gap(s, p, v)
    ensures Sorted(Insert(s, p, v)) && Elements(Insert(s, p, v)) == Elements(s) + {v} && v !in Elements(s)
  {
    var r := Insert(s, p, v);
    forall x ensures x in r <==> x in s || x == v {
      assert s == s[..p] + s[p..];
    }
  }

  lemma DeleteSorted(s: seq<int>, p: nat)
    requires Sorted(s) && p < |s|
    ensures Sorted(Delete(s, p)) && Elements(Delete(s, p)) == Elements(s) - {s[p]}
  {
    var r, v := Delete(s, p), s[p];
    forall x ensures x in r <==> x in s && x != v {
      assert s == s[..p] + [s[p]] + s[p + 1..];
      if x in s[..p] { var i :| 0 <= i < p && s[i] == x; assert s[i] < s[p]; }
      if x in s[p + 1..] { var i :| p + 1 <= i < |s| && s[i] == x; assert s[p] < s[i]; }
    }
  }

  lemma NoElements(s: seq<int>)
    ensures Elements(s) == {} <==> s == []
  {
    if s != [] { assert s[0] in Elements(s); }
  }

  /** Sorted sequences with the same elements are the same. */
  lemma {:induction false} SortedUnique(s: seq<int>, t: seq<int>)
    requires Sorted(s) && Sorted(t) && Elements(s) == Elements(t)
    ensures s == t
    decreases |s|
  {
    NoElements(s);
    NoElements(t);
    if s != [] {
      assert s[0] in Elements(s) && t[0] in Elements(t);
      assert s[0] == t[0];
      DeleteSorted(s, 0);
      DeleteSorted(t, 0);
      assert Delete(s, 0) == s[1..] && Delete(t, 0) == t[1..];
      SortedUnique(s[1..], t[1..]);
    }
  }

  lemma GapAt(s: seq<int>, p: nat, v: int)
    requires Sorted(s) && p <= |s|
    requires p > 0 ==> s[p - 1] < v
    requires p < |s| ==> v < s[p]
    ensures Gap(s, p, v)
  {
    forall i | 0 <= i < p ensures s[i] < v { if i < p - 1 { assert s[i] < s[p - 1]; } }
    forall i | p <= i < |s| ensures v < s[i] { if p < i { assert s[p] < s[i]; } }
  }

  // ---- several values at once -----------------------------------------------

  lemma {:induction false} LeValueBound(b: bytes)
    ensures LeValue(b) < Pow256(|b|)
    decreases |b|
  {
    if b != [] { LeValueBound(b[1..]); }
  }

  /** What is read fits the width. */
  lemma ValueFits(b: bytes, enc: nat, p: nat)
    requires IsEnc(enc)
    ensures Fits(Value(b, enc, p), enc)
  {
    hide LeValue, Pow256, Off;
    Pow256Is(enc);
    if Off(enc, p) + enc <= |b| { LeValueBound(b[Off(enc, p)..Off(enc, p) + enc]); }
  }

  lemma PrefixValue(b: bytes, c: bytes, enc: nat, p: nat)
    requires |b| <= |c| && c[..|b|] == b && Off(enc, p) + enc <= |b|
    ensures Value(c, enc, p) == Value(b, enc, p)
  {
    hide LeValue, Signed, Off;
    SubSlice(c, 0, |b|, Off(enc, p), Off(enc, p) + enc);
  }

  lemma PrefixValues(b: bytes, c: bytes, enc: nat, n: nat)
    requires IsEnc(enc) && |b| <= |c| && c[..|b|] == b && Off(enc, n) <= |b|
    ensures Values(c, enc, n) == Values(b, enc, n)
  {
    hide Value, Off;
    forall i | 0 <= i < n ensures Value(c, enc, i) == Value(b, enc, i) {
      OffApart(enc, i, n);
      PrefixValue(b, c, enc, i);
    }
  }

  /** A value that needs a larger width lies outside all values of the smaller. */
  lemma Outside(b: bytes, enc: nat, n: nat, v: int)
    requires IsEnc(enc) && Fits(v, 8) && ValueEncoding(v) > enc
    ensures Gap(Values(b, enc, n), if v < 0 then 0 else n, v)
  {
    hide Value, ValueEncoding;
    assert !Fits(v, enc);
    forall i | 0 <= i < n ensures Fits(Value(b, enc, i), enc) { ValueFits(b, enc, i); }
  }

  lemma PutValues(b: bytes, enc: nat, p: nat, v: int, n: nat)
    requires IsEnc(enc) && Fits(v, enc) && Off(enc, p) + enc <= |b| && p < n
    ensures Values(Put(b, Off(enc, p), LeBytes(v, enc)), enc, n) == Values(b, enc, n)[p := v]
  {
    hide Value, Put, LeBytes, Off, Fits;
    var c := Put(b, Off(enc, p), LeBytes(v, enc));
    var r, s := Values(c, enc, n), Values(b, enc, n)[p := v];
    forall q | 0 <= q < n ensures r[q] == s[q] {
      PutValue(b, enc, p, v, q);
      assert r[q] == Value(c, enc, q);
    }
  }

  lemma WiderFits(v: int, enc: nat, wide: nat)
    requires IsEnc(enc) && IsEnc(wide) && enc <= wide && Fits(v, enc)
    ensures Fits(v, wide)
  {
  }

  /** One step of the upgrade: value `l` goes to its place in the larger width.
      Values before it keep their bytes, those behind it are where they belong. */
  lemma UpgradeStep(b: bytes, enc: nat, wide: nat, l: nat, prepend: nat, v: int)
    requires IsEnc(enc) && IsEnc(wide) && enc < wide && Fits(v, wide) && prepend <= 1
    requires Off(wide, l + prepend) + wide <= |b|
    ensures var c := Put(b, Off(wide, l + prepend), LeBytes(v, wide));
      && (forall i: nat :: i < l ==> Value(c, enc, i) == Value(b, enc, i))
      && (forall j: nat :: Value(c, wide, j) == if j == l + prepend then v else Value(b, wide, j))
  {
    hide Value, Put, LeBytes, Off, Fits;
    var c := Put(b, Off(wide, l + prepend), LeBytes(v, wide));
    forall i: nat | i < l ensures Value(c, enc, i) == Value(b, enc, i) {
      OffApart(enc, i, l);
      OffWider(enc, wide, l);
      OffApart(wide, l, l + prepend);
      PutBeyond(b, Off(wide, l + prepend), LeBytes(v, wide), enc, i);
    }
    forall j: nat ensures Value(c, wide, j) == if j == l + prepend then v else Value(b, wide, j) {
      PutValue(b, wide, l + prepend, v, j);
    }
  }

  lemma InsertedIs(s: seq<int>, r: seq<int>, p: nat, v: int)
    requires p <= |s| && |r| == |s| + 1 && r[p] == v
    requires forall q :: 0 <= q < p ==> r[q] == s[q]
    requires forall q :: p < q <= |s| ==> r[q] == s[q - 1]
    ensures r == Insert(s, p, v)
  {
  }

  /** Moving the tail up and storing the new value inserts it. */
  lemma InsertValues(b: bytes, enc: nat, n: nat, p: nat, v: int)
    requires IsEnc(enc) && Fits(v, enc) && p <= n && Off(enc, n + 1) == |b|
    ensures Off(enc, p) <= Off(enc, n) <= |b| && Off(enc, p + 1) + (Off(enc, n) - Off(enc, p)) <= |b|
    ensures Off(enc, p) + enc <= |b|
    ensures var m := Moved(b, enc, p, n, p + 1);
      Values(Put(m, Off(enc, p), LeBytes(v, enc)), enc, n + 1) == Insert(Values(b, enc, n), p, v)
  {
    hide Value, Put, LeBytes, Off, Fits, Moved;
    OffApart(enc, p, n);
    OffApart(enc, n, n + 1);
    OffApart(enc, p, n + 1);
    OffApart(enc, p + 1, p + 1);
    var m := Moved(b, enc, p, n, p + 1);
    PutValues(m, enc, p, v, n + 1);
    var s, t := Values(b, enc, n), Values(m, enc, n + 1);
    forall q | p < q <= n ensures t[q] == s[q - 1] {
      MovedValue(b, enc, p, n, p + 1, q);
      assert p + (q - (p + 1)) == q - 1;
    }
    forall q | 0 <= q < p ensures t[q] == s[q] {
      MovedValue(b, enc, p, n, p + 1, q);
    }
    InsertedIs(s, t[p := v], p, v);
  }

  /** Without a tail to move there is only the new value to store. */
  lemma AppendValues(b: bytes, enc: nat, n: nat, v: int)
    requires IsEnc(enc) && Fits(v, enc) && Off(enc, n + 1) == |b|
    ensures Off(enc, n) + enc <= |b|
    ensures Values(Put(b, Off(enc, n), LeBytes(v, enc)), enc, n + 1) == Insert(Values(b, enc, n), n, v)
  {
    hide Value, Put, LeBytes, Off, Fits;
    OffApart(enc, n, n + 1);
    PutValues(b, enc, n, v, n + 1);
    var s, t := Values(b, enc, n), Values(b, enc, n + 1);
    forall q | 0 <= q < n ensures t[q] == s[q] { assert t[q] == Value(b, enc, q) && s[q] == Value(b, enc, q); }
    InsertedIs(s, t[n := v], n, v);
  }

  /** Moving the tail down deletes a value. */
  lemma DeleteValues(b: bytes, enc: nat, n: nat, p: nat)
    requires IsEnc(enc) && p < n && Off(enc, n) == |b|
    ensures Off(enc, p + 1) <= Off(enc, n) <= |b| && Off(enc, p) + (Off(enc, n) - Off(enc, p + 1)) <= |b|
    ensures Off(enc, n - 1) <= |b|
    ensures var m := if p < n - 1 then Moved(b, enc, p + 1, n, p) else b;
      Values(m[..Off(enc, n - 1)], enc, n - 1) == Delete(Values(b, enc, n), p)
  {
    hide Value, Off, Moved;
    OffApart(enc, p, n);
    OffApart(enc, p, p + 1);
    OffApart(enc, p + 1, n);
    OffApart(enc, n - 1, n);
    var m := if p < n - 1 then Moved(b, enc, p + 1, n, p) else b;
    var c := m[..Off(enc, n - 1)];
    PrefixValues(c, m, enc, n - 1);
    forall q: nat | q < n - 1 ensures Value(m, enc, q) == Value(b, enc, if p <= q then q + 1 else q) {
      if p < n - 1 { MovedValue(b, enc, p + 1, n, p, q); }
    }
    var r, s := Values(c, enc, n - 1), Delete(Values(b, enc, n), p);
    forall q | 0 <= q < n - 1 ensures r[q] == s[q] {}
  }
}
