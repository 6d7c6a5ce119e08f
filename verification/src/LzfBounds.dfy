/**
What the stream format alone says about sizes: a text in which no three bytes come
back within the reach of a reference can only be stored as literals.
*/
module LzfBounds {
  import opened Common
  import opened LzfFormat

  /** The three bytes at `i` and at `j` are the same. */
  predicate SameThree(s: bytes, i: nat, j: nat)
    requires i + 3 <= |s| && j + 3 <= |s|
  {
    s[i] == s[j] && s[i + 1] == s[j + 1] && s[i + 2] == s[j + 2]
  }

  /** No three bytes among the first `m` occur again there within MAX_OFF. */
  predicate NoRepeat(s: bytes, m: nat)
    requires m <= |s|
  {
    forall i: nat, j: nat :: i < j <= i + MAX_OFF && j + 3 <= m ==> !SameThree(s, i, j)
  }

  lemma {:induction false} MeaningPrefix(out: bytes, items: seq<Item>)
    requires Meaning(out, items).Some?
    ensures out <= Meaning(out, items).value
    decreases |items|
  {
    if items != [] {
      var o := Apply(out, items[0]).value;
      MeaningPrefix(o, items[1..]);
      ApplyPrefix(out, items[0]);
    }
  }

  lemma ApplyPrefix(out: bytes, item: Item)
    requires Apply(out, item).Some?
    ensures out <= Apply(out, item).value
  {
    if item.Ref? {
      var o := Apply(out, item).value;
      forall k | 0 <= k < |out| ensures o[k] == out[k] { CopyBackMeaning(out, item.dist, item.len, k); }
    }
  }

  /** A reference repeats three bytes. */
  lemma RefRepeats(out: bytes, item: Item, s: bytes)
    requires item.Ref? && item.Valid() && Apply(out, item).Some? && Apply(out, item).value <= s
    ensures |out| + 3 <= |s| && item.dist <= |out| && SameThree(s, |out| - item.dist, |out|)
  {
    var o := Apply(out, item).value;
    forall k | |out| <= k < |out| + 3 ensures s[k] == s[k - item.dist] {
      CopyBackMeaning(out, item.dist, item.len, k);
      assert s[k] == o[k] && s[k - item.dist] == o[k - item.dist];
    }
  }

  /** Where nothing repeats, every 32 bytes cost 33. */
  lemma {:induction false} LiteralsOnly(out: bytes, items: seq<Item>, s: bytes, m: nat)
    requires AllValid(items) && Meaning(out, items) == Some(s) && m <= |s| && NoRepeat(s, m)
    ensures 32 * |Encode(items)| + 33 * |out| >= 33 * (m - 2)
    decreases |items|
  {
    hide NoRepeat, CopyBack;
    if |out| < m - 2 && items != [] {
      var item := items[0];
      var o := Apply(out, item).value;
      MeaningPrefix(o, items[1..]);
      if item.Ref? {
        RefRepeats(out, item, s);
        Repeats(s, m, |out| - item.dist, |out|);
        assert false;
      }
      LiteralsOnly(o, items[1..], s, m);
    }
  }

  lemma Repeats(s: bytes, m: nat, i: nat, j: nat)
    requires m <= |s| && NoRepeat(s, m) && i < j <= i + MAX_OFF && j + 3 <= m
    ensures !SameThree(s, i, j)
  {
  }

  /** A text free of repeats has no form that saves anything. */
  lemma Incompressible(items: seq<Item>, s: bytes)
    requires AllValid(items) && Meaning([], items) == Some(s) && NoRepeat(s, |s|)
    ensures |Encode(items)| + 4 > |s|
  {
    LiteralsOnly([], items, s, |s|);
  }

  // ---- a text free of repeats ------------------------------------------------------

  /** Blocks of a mark and two digits in base 60, each from a range of its own. */
  function IrregularByte(i: nat): byte {
    if i % 3 == 0 then 200 else if i % 3 == 1 then i / 3 / 60 % 60 else 60 + i / 3 % 60
  }

  function Irregular(n: nat): (s: bytes)
    ensures |s| == n
  {
    seq(n, i requires 0 <= i < n => IrregularByte(i))
  }

  /** Three bytes in a row tell where in 10800 bytes they are. */
  lemma Place(i: nat, j: nat)
    requires i < j <= i + MAX_OFF
    ensures !(IrregularByte(i) == IrregularByte(j) && IrregularByte(i + 1) == IrregularByte(j + 1)
              && IrregularByte(i + 2) == IrregularByte(j + 2))
  {
    var t, u := i / 3, j / 3;
    if i % 3 == j % 3 {
      assert j - i == 3 * (u - t);
      SameBlock(t, u, t, u);
      SameBlock(t, u, t + 1, u + 1);
    }
  }

  lemma SameBlock(t: nat, u: nat, t': nat, u': nat)
    requires 0 < u - t <= 2730 && ((t' == t && u' == u) || (t' == t + 1 && u' == u + 1))
    ensures !(t % 60 == u % 60 && t' / 60 % 60 == u' / 60 % 60)
  {
    if t % 60 == u % 60 {
      var d := u / 60 - t / 60;
      assert u == t + 60 * d && 0 < d <= 45;
      assert u' / 60 == t' / 60 + d by { Blocks(t', d); }
      Turn(t' / 60, d);
    }
  }

  lemma Blocks(x: nat, d: nat)
    ensures (x + 60 * d) / 60 == x / 60 + d
  {
  }

  lemma Turn(x: nat, d: nat)
    requires 0 < d < 60
    ensures (x + d) % 60 != x % 60
  {
  }

  lemma IrregularFresh(s: bytes, m: nat)
    requires m <= |s| && s[..m] == Irregular(m)
    ensures NoRepeat(s, m)
  {
    forall i: nat, j: nat | i < j <= i + MAX_OFF && j + 3 <= m ensures !SameThree(s, i, j) {
      forall k | k in {i, i + 1, i + 2, j, j + 1, j + 2} ensures s[k] == IrregularByte(k) {
        assert s[k] == s[..m][k];
      }
      Place(i, j);
    }
  }
}
