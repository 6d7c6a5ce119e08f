/**
The LZF stream format (the comment at lzf_c.c:89-96), stated without
reference to either the compressor or the decompressor: a stream is a list of
items, an item stands for some bytes, and an item has one encoding.
*/
module LzfFormat {
  import opened Common

  const MAX_LIT: nat := 32
  const MAX_OFF: nat := 8192
  const MAX_REF: nat := 264

  /** A literal run, or a reference to `len` bytes starting `dist` bytes back. */
  datatype Item = Literal(data: bytes) | Ref(dist: nat, len: nat)
  {
    predicate Valid() {
      match this
      case Literal(data) => 1 <= |data| <= MAX_LIT
      case Ref(dist, len) => 1 <= dist <= MAX_OFF && 3 <= len <= MAX_REF
    }

    function Encode(): (e: bytes)
      requires Valid()
      ensures |e| >= 2
    {
      match this
      case Literal(data) => [|data| - 1] + data
      case Ref(dist, len) =>
        var off := dist - 1;
        if len - 2 < 7 then [off / 256 + (len - 2) * 32, off % 256]
        else [off / 256 + 7 * 32, len - 2 - 7, off % 256]
    }
  }

  /** `out` followed by `len` bytes, each equal to the one `dist` places before
      it; the copied range may overlap what it produces. */
  function CopyBack(out: bytes, dist: nat, len: nat): (r: bytes)
    requires 1 <= dist <= |out|
    ensures |r| == |out| + len
    decreases len
  {
    if len == 0 then out else CopyBack(out + [out[|out| - dist]], dist, len - 1)
  }

  predicate AllValid(items: seq<Item>) {
    forall i :: 0 <= i < |items| ==> items[i].Valid()
  }

  function Encode(items: seq<Item>): bytes
    requires AllValid(items)
  {
    if items == [] then [] else items[0].Encode() + Encode(items[1..])
  }

  /** What one item turns the output `out` into; None when it refers to a
      position before the start of the output. */
  function Apply(out: bytes, item: Item): Option<bytes> {
    match item
    case Literal(data) => Some(out + data)
    case Ref(dist, len) => if 1 <= dist <= |out| then Some(CopyBack(out, dist, len)) else None
  }

  /** The bytes `items` stand for, appended to `out`. */
  function Meaning(out: bytes, items: seq<Item>): Option<bytes>
    decreases |items|
  {
    if items == [] then Some(out)
    else match Apply(out, items[0])
      case None => None
      case Some(o) => Meaning(o, items[1..])
  }

  lemma {:induction false} EncodeAppend(items: seq<Item>, item: Item)
    requires AllValid(items) && item.Valid()
    ensures AllValid(items + [item])
    ensures Encode(items + [item]) == Encode(items) + item.Encode()
  {
    var all := items + [item];
    if items == [] {
      assert all[1..] == [];
    } else {
      EncodeAppend(items[1..], item);
      assert all[1..] == items[1..] + [item];
    }
  }

  lemma {:induction false} MeaningAppend(out: bytes, items: seq<Item>, item: Item)
    requires Meaning(out, items).Some?
    ensures Meaning(out, items + [item]) == Apply(Meaning(out, items).value, item)
    decreases |items|
  {
    var all := items + [item];
    if items == [] {
      assert all[1..] == [];
      assert Meaning(out, items).value == out;
    } else {
      assert all[1..] == items[1..] + [item];
      MeaningAppend(Apply(out, items[0]).value, items[1..], item);
    }
  }

  /** Output only grows as items are applied. */
  lemma {:induction false} MeaningGrows(out: bytes, items: seq<Item>)
    requires Meaning(out, items).Some?
    ensures |out| <= |Meaning(out, items).value|
    decreases |items|
  {
    if items != [] {
      MeaningGrows(Apply(out, items[0]).value, items[1..]);
    }
  }

  /** What an overlapping copy means: the old bytes stay, and every new byte
      equals the one `dist` places before it. */
  lemma {:induction false} CopyBackMeaning(out: bytes, dist: nat, len: nat, k: nat)
    requires 1 <= dist <= |out| && k < |out| + len
    ensures CopyBack(out, dist, len)[k] == if k < |out| then out[k] else CopyBack(out, dist, len)[k - dist]
    decreases len
  {
    if len > 0 {
      var next := out + [out[|out| - dist]];
      CopyBackMeaning(next, dist, len - 1, k);
      if k == |out| {
        CopyBackMeaning(next, dist, len - 1, k - dist);
      }
    }
  }

  /** A back reference reproduces the text when the text repeats itself. */
  lemma {:induction false} CopyBackIsText(text: bytes, i: nat, dist: nat, len: nat)
    requires 1 <= dist <= i && i + len <= |text|
    requires forall k :: i <= k < i + len ==> text[k] == text[k - dist]
    ensures CopyBack(text[..i], dist, len) == text[..i + len]
    decreases len
  {
    if len > 0 {
      assert text[..i] + [text[..i][i - dist]] == text[..i + 1];
      CopyBackIsText(text, i + 1, dist, len - 1);
    }
  }
}
