/** When the tables of a dictionary grow and shrink, and to what sizes (dict.c:129-182,
    519-553). */
module DictSizes {
  import opened Common
  import opened DictModel

  /** The smallest power of two from 4 on that is at least `size`. */
  ghost predicate Smallest(p: nat, size: nat) {
    PowerOfTwo(p) && p >= 4 && p >= size && (p > 4 ==> p < 2 * size)
  }

  /** A new dictionary is empty, has no tables and no iterators. */
  lemma CreateEmpty<K(!new), V>(h: K -> nat)
    ensures var s := Create<K, V>(); Inv(h, s) && Represents(h, s, map[]) && !s.Rehashing() && s.iterators == 0
  {
  }

  lemma FirstPower(size: nat)
    ensures Smallest(NextPower(INITIAL_SIZE, size), size)
  {
    assert PowerOfTwo(4) by { assert PowerOfTwo(1) && PowerOfTwo(2); }
    NextPowerOk(INITIAL_SIZE, size);
  }

  /** `r` has a new empty table of the smallest size for `size`: the first one, or the one
      its entries are about to move to. */
  ghost predicate Resized<K, V>(s: State<K, V>, r: State<K, V>, size: nat) {
    && r.iterators == s.iterators
    && if s.ht0 == [] then !r.Rehashing() && Smallest(|r.ht0|, size) && r.used0 == 0
       else r.rehashidx == 0 && r.ht0 == s.ht0 && r.used0 == s.used0 && Smallest(|r.ht1|, size) && r.used1 == 0
  }

  lemma ExpandSizes<K, V>(s: State<K, V>, size: nat)
    ensures if s.Rehashing() || s.used0 > size then Expand(s, size) == s else Resized(s, Expand(s, size), size)
  {
    hide NextPower;
    FirstPower(size);
  }

  lemma MoreThanFive(a: nat, b: nat)
    requires b > 0
    ensures a / b > 5 <==> a >= 6 * b
  {
    var q := a / b;
    assert a == q * b + a % b;
    if q > 5 {
      assert q * b >= 6 * b;
    } else {
      assert q * b <= 5 * b;
    }
  }

  /** How many entries to a bucket are allowed before a table must grow. */
  function Ratio(can: bool): nat { if can then 1 else 6 }

  /** Before an add: without tables the first one gets four buckets; a table with as many
      entries as buckets, or six times as many where resizing is not allowed, begins to
      move to one for twice as many; nothing else happens. */
  lemma GrowsWhen<K(!new), V>(h: K -> nat, s: State<K, V>, can: bool)
    requires Inv(h, s)
    ensures var r := ExpandIfNeeded(s, can);
      if s.Rehashing() then r == s
      else if s.ht0 == [] then Resized(s, r, 4)
      else if s.used0 >= Ratio(can) * |s.ht0| then Resized(s, r, 2 * s.used0)
      else r == s
  {
    hide Expand, Resized, Inv;
    Bounds(h, s);
    ExpandSizes(s, 4);
    if !s.Rehashing() && s.ht0 != [] {
      MoreThanFive(s.used0, |s.ht0|);
      ExpandSizes(s, 2 * s.used0);
    }
  }

  /** After an add a table that is not moving has at most one entry to a bucket, or six
      where resizing is not allowed. */
  lemma AddLoad<K(!new), V>(h: K -> nat, s: State<K, V>, k: K, v: V, can: bool)
    requires Inv(h, s) && Get(h, s, k) == None
    ensures var r := Add(h, s, k, v, can); !r.Rehashing() ==> r.used0 <= Ratio(can) * |r.ht0|
  {
    hide Inv, Get, ExpandIfNeeded;
    Bounds(h, s);
    StepKeeps(h, s);
    GrowsWhen(h, Step(h, s), can);
  }

  /** dictResize begins to move the entries to the smallest table that has a bucket for
      each, if that is allowed and they are not moving already. */
  lemma ShrinksWhen<K, V>(s: State<K, V>, can: bool)
    ensures var r := Resize(s, can);
      if can && !s.Rehashing() then Resized(s, r, if s.used0 < 4 then 4 else s.used0) else r == s
  {
    hide Expand, Resized;
    ExpandSizes(s, if s.used0 < 4 then 4 else s.used0);
  }
}
