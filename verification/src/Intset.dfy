/** intset.c on its byte array. */
module Intset {
  import opened Common
  import opened IntsetModel

  /** `b` over the array from `at` on. */
  method Write(a: array<byte>, at: nat, b: bytes)
    requires at + |b| <= a.Length
    modifies a
    ensures a[..] == Put(old(a[..]), at, b)
  {
    var k := 0;
    while k < |b|
      invariant k <= |b|
      invariant forall j :: 0 <= j < a.Length ==> a[j] == if at <= j < at + k then b[j - at] else old(a[j])
    {
      a[at + k] := b[k];
      k := k + 1;
    }
  }

  class Intset {
    var encoding: nat
    var length: nat
    var contents: array<byte>

    ghost function Now(): seq<int>
      reads this, contents
    {
      Values(contents[..], encoding, length)
    }

    /** The array has room for the values, and they are in strictly rising order.
        That they fit the width goes with the way they are stored. */
    ghost predicate Valid()
      reads this, contents
    {
      IsEnc(encoding) && Off(encoding, length) == contents.Length && Sorted(Now())
    }

    ghost function Members(): set<int>
      reads this, contents
    {
      Elements(Now())
    }

    /** intsetNew. */
    constructor ()
      ensures Valid() && fresh(contents) && Members() == {} && encoding == 2
    {
      encoding, length := 2, 0;
      contents := new byte[0];
      new;
      OffApart(2, 0, 0);
    }

    /** _intsetGetEncoded, on a little-endian machine. */
    method GetEncoded(pos: nat, enc: nat) returns (v: int)
      requires IsEnc(enc) && Off(enc, pos) + enc <= contents.Length
      ensures v == Value(contents[..], enc, pos)
    {
      hide LeValue, Signed, Off;
      var raw := contents[Off(enc, pos)..Off(enc, pos) + enc];
      v := Signed(LeValue(raw), Half(enc));
      assert raw == contents[..][Off(enc, pos)..Off(enc, pos) + enc];
    }

    /** _intsetSet. */
    method Set(pos: nat, value: int)
      requires IsEnc(encoding) && Fits(value, encoding) && Off(encoding, pos) + encoding <= contents.Length
      modifies contents
      ensures contents[..] == Put(old(contents[..]), Off(encoding, pos), LeBytes(value, encoding))
    {
      Write(contents, Off(encoding, pos), LeBytes(value, encoding));
    }

    /** intsetResize: zrealloc keeps what fits. */
    method Resize(len: nat)
      modifies this`contents
      ensures contents.Length == Off(encoding, len) && fresh(contents)
      ensures contents.Length >= old(contents).Length ==> contents[..old(contents).Length] == old(contents[..])
      ensures contents.Length <= old(contents).Length ==> contents[..] == old(contents[..])[..contents.Length]
    {
      var size := Off(encoding, len);
      var was := contents;
      contents := new byte[size];
      var k := 0;
      while k < was.Length && k < size
        invariant k <= was.Length && k <= size
        invariant contents.Length == size && fresh(contents)
        invariant contents[..k] == was[..k]
      {
        contents[k] := was[k];
        k := k + 1;
      }
    }

    /** intsetSearch. */
    method Search(value: int) returns (found: bool, pos: nat)
      requires Valid()
      ensures found ==> pos < length && Now()[pos] == value
      ensures !found ==> Gap(Now(), pos, value)
    {
      hide Value, Off, Sorted, Elements;
      ghost var s := Now();
      var min, max, mid := 0, length - 1, -1;
      var cur := -1;
      if length == 0 {
        return false, 0;
      }
      var last := Get(length - 1);
      if value > last {
        GapAt(s, length, value);
        return false, length;
      }
      var first := Get(0);
      if value < first {
        GapAt(s, 0, value);
        return false, 0;
      }
      while max >= min
        invariant 0 <= min <= max + 1 <= length && mid >= -1
        invariant min > 0 ==> s[min - 1] < value
        invariant max + 1 < length ==> value < s[max + 1]
        invariant mid == -1 ==> min == 0 && max == length - 1
        invariant mid >= 0 ==> mid < length && cur == s[mid] && cur != value
        decreases max - min
      {
        mid := (min + max) / 2;
        cur := Get(mid);
        if value > cur {
          min := mid + 1;
        } else if value < cur {
          max := mid - 1;
        } else {
          break;
        }
      }
      if value == cur {
        return true, mid;
      }
      GapAt(s, min, value);
      return false, min;
    }

    /** _intsetGet. */
    method Get(pos: nat) returns (v: int)
      requires Valid() && pos < length
      ensures v == Now()[pos]
    {
      OffApart(encoding, pos, length);
      v := GetEncoded(pos, encoding);
    }

    /** intsetMoveTail: memmove of the values from `from` on. */
    method MoveTail(from: nat, to: nat)
      requires IsEnc(encoding) && from <= length && Off(encoding, from) <= Off(encoding, length) <= contents.Length
      requires Off(encoding, to) + (Off(encoding, length) - Off(encoding, from)) <= contents.Length
      modifies contents
      ensures contents[..] == Moved(old(contents[..]), encoding, from, length, to)
    {
      var tail := contents[Off(encoding, from)..Off(encoding, length)];
      assert tail == contents[..][Off(encoding, from)..Off(encoding, length)];
      Write(contents, Off(encoding, to), tail);
    }

    /** The loop of intsetUpgradeAndAdd, from the back, so that no value is
        overwritten before it has been read. */
    method Upgrade(curenc: nat, prepend: nat, ghost b: bytes)
      requires IsEnc(curenc) && IsEnc(encoding) && curenc < encoding && prepend <= 1
      requires |b| == Off(curenc, length) && contents.Length == Off(encoding, length + 1)
      requires |b| <= contents.Length && contents[..|b|] == b
      modifies contents
      ensures forall i: nat :: i < length ==> Value(contents[..], encoding, i + prepend) == Value(b, curenc, i)
    {
      hide Value, Put, LeBytes, Off, Fits;
      forall i: nat | i < length ensures Value(contents[..], curenc, i) == Value(b, curenc, i) {
        OffApart(curenc, i, length);
        PrefixValue(b, contents[..], curenc, i);
      }
      var l := length;
      while l > 0
        invariant l <= length
        invariant forall i: nat :: i < l ==> Value(contents[..], curenc, i) == Value(b, curenc, i)
        invariant forall i: nat :: l <= i < length ==> Value(contents[..], encoding, i + prepend) == Value(b, curenc, i)
      {
        l := l - 1;
        Places(curenc, encoding, l, length, prepend);
        var v := GetEncoded(l, curenc);
        ValueFits(contents[..], curenc, l);
        WiderFits(v, curenc, encoding);
        UpgradeStep(contents[..], curenc, encoding, l, prepend, v);
        Set(l + prepend, v);
      }
    }

    /** intsetUpgradeAndAdd. */
    method UpgradeAndAdd(value: int)
      requires Valid() && Fits(value, 8) && ValueEncoding(value) > encoding
      modifies this`encoding, this`length, this`contents
      ensures Valid() && fresh(contents)
      ensures encoding == ValueEncoding(value)
      ensures Members() == old(Members()) + {value} && value !in old(Members())
    {
      hide Sorted, Elements, LeBytes, Put, Value, Off, ValueEncoding;
      ghost var s, b := Now(), contents[..];
      Outside(b, encoding, length, value);
      var curenc, newenc := encoding, ValueEncoding(value);
      var prepend := if value < 0 then 1 else 0;
      Places(curenc, newenc, length, length, 0);
      encoding := newenc;
      Resize(length + 1);
      assert b == contents[..|b|];
      Upgrade(curenc, prepend, b);
      var at := if prepend == 1 then 0 else length;
      Places(curenc, newenc, at, length, 0);
      PutValues(contents[..], newenc, at, value, length + 1);
      GapInsert(s, at, value);
      Set(at, value);
      length := length + 1;
      assert Now() == Insert(s, at, value);
    }

    /** intsetAdd. */
    method Add(value: int) returns (success: bool)
      requires Valid() && Fits(value, 8)
      modifies this`encoding, this`length, this`contents
      ensures Valid() && if success then fresh(contents) else contents == old(contents)
      ensures Members() == old(Members()) + {value}
      ensures success <==> value !in old(Members())
      ensures encoding == if ValueEncoding(value) > old(encoding) then ValueEncoding(value) else old(encoding)
    {
      hide Sorted, Elements, LeBytes, Put, Value, Off, ValueEncoding, Moved, Fits;
      var valenc := ValueEncoding(value);
      if valenc > encoding {
        UpgradeAndAdd(value);
        return true;
      }
      WiderFits(value, valenc, encoding);
      var found, pos := Search(value);
      ghost var s, n := Now(), length;
      if found {
        HasElement(s, pos);
        assert Members() == old(Members()) + {value};
        return false;
      }
      Places(encoding, encoding, length, length, 0);
      GapInsert(s, pos, value);
      Resize(length + 1);
      ghost var c := contents[..];
      PrefixValues(old(contents[..]), c, encoding, length);
      if pos < length {
        InsertValues(c, encoding, n, pos, value);
        MoveTail(pos, pos + 1);
      } else {
        AppendValues(c, encoding, n, value);
      }
      Set(pos, value);
      length := length + 1;
      assert Now() == Insert(s, pos, value);
      success := true;
    }

    /** intsetRemove. */
    method Remove(value: int) returns (success: bool)
      requires Valid() && Fits(value, 8)
      modifies this`length, this`contents, contents
      ensures Valid() && encoding == old(encoding)
      ensures Members() == old(Members()) - {value}
      ensures success <==> value in old(Members())
    {
      hide Sorted, Elements, Value, Off, ValueEncoding, Moved, Fits;
      ghost var s, b := Now(), contents[..];
      var valenc := ValueEncoding(value);
      if valenc > encoding {
        Outside(b, encoding, length, value);
        NotElement(s, if value < 0 then 0 else length, value);
        return false;
      }
      var found, pos := Search(value);
      if !found {
        NotElement(s, pos, value);
        return false;
      }
      HasElement(s, pos);
      DeleteSorted(s, pos);
      DeleteValues(b, encoding, length, pos);
      if pos < length - 1 {
        MoveTail(pos + 1, pos);
      }
      Resize(length - 1);
      length := length - 1;
      assert Now() == Delete(s, pos);
      success := true;
    }

    /** intsetFind. */
    method Find(value: int) returns (r: bool)
      requires Valid() && Fits(value, 8)
      ensures r <==> value in Members()
    {
      hide Sorted, Elements, Value, Off, ValueEncoding, Fits;
      ghost var s := Now();
      if ValueEncoding(value) > encoding {
        Outside(contents[..], encoding, length, value);
        NotElement(s, if value < 0 then 0 else length, value);
        return false;
      }
      var found, pos := Search(value);
      if found { HasElement(s, pos); } else { NotElement(s, pos, value); }
      return found;
    }
  }

  /** Value `l` of `n`, and one more, find their places in the larger width. */
  lemma Places(enc: nat, wide: nat, l: nat, n: nat, prepend: nat)
    requires IsEnc(enc) && IsEnc(wide) && enc <= wide && l <= n && prepend <= 1 && l + prepend <= n
    ensures Off(wide, l + prepend) + wide <= Off(wide, n + 1)
    ensures l < n ==> Off(enc, l) + enc <= Off(wide, n + 1)
    ensures Off(enc, n) <= Off(wide, n + 1)
  {
    hide Off;
    OffApart(wide, l + prepend, n + 1);
    OffApart(enc, l, n + 1);
    OffApart(enc, n, n + 1);
    OffWider(enc, wide, n + 1);
  }

  lemma HasElement(s: seq<int>, p: nat)
    requires p < |s|
    ensures s[p] in Elements(s) && Elements(s) + {s[p]} == Elements(s)
  {
  }

  lemma NotElement(s: seq<int>, p: nat, v: int)
    requires Gap(s, p, v)
    ensures v !in Elements(s) && Elements(s) - {v} == Elements(s)
  {
  }
}
