/** lzf_d.c: the decompressor, and its specification as a decoding function. */
module LzfDecompress {
  import opened Common
  import opened LzfFormat

  datatype Error = E2BIG | EINVAL

  /** The first bytes of an item: a run length, or a distance and a length
      together with the number of bytes they take. */
  datatype Head = Run(count: nat) | Back(dist: nat, len: nat, size: nat)

  /** Reads one item head; None when the input ends inside it. */
  function ReadHead(src: bytes): (h: Option<Head>)
    requires src != []
    ensures h.Some? && h.value.Run? ==> 1 <= h.value.count <= MAX_LIT
    ensures h.Some? && h.value.Back? ==> 1 <= h.value.dist && 3 <= h.value.len && 2 <= h.value.size <= |src|
  {
    var ctrl: nat := src[0];
    var tag, high := ctrl / 32, ctrl % 32;
    if tag == 0 then Some(Run(ctrl + 1))
    else if tag == 7 then
      if |src| < 3 then None else Some(Back(high * 256 + src[2] + 1, 9 + src[1] as int, 3))
    else
      if |src| < 2 then None else Some(Back(high * 256 + src[1] + 1, 2 + tag, 2))
  }

  /** Decodes `src` behind the output `out`, with room for `cap` bytes in all. */
  function Decode(src: bytes, out: bytes, cap: nat): Result<bytes, Error>
    requires |out| <= cap
    decreases |src|
  {
    if src == [] then Ok(out)
    else match ReadHead(src)
      case None => Err(EINVAL)
      case Some(Run(count)) =>
        if |out| + count > cap then Err(E2BIG)
        else if 1 + count > |src| then Err(EINVAL)
        else Decode(src[1 + count..], out + src[1..1 + count], cap)
      case Some(Back(dist, len, size)) =>
        if |out| + len > cap then Err(E2BIG)
        else if dist > |out| then Err(EINVAL)
        else Decode(src[size..], CopyBack(out, dist, len), cap)
  }

  lemma SplitTag(high: nat, tag: nat)
    requires high < 32
    ensures (high + tag * 32) / 32 == tag && (high + tag * 32) % 32 == high
  {
  }

  lemma HeadOfRef(item: Item, rest: bytes)
    requires item.Valid() && item.Ref?
    ensures ReadHead(item.Encode() + rest) == Some(Back(item.dist, item.len, |item.Encode()|))
  {
    var off := item.dist - 1;
    SplitTag(off / 256, if item.len < 9 then item.len - 2 else 7);
    assert off / 256 * 256 + off % 256 == off;
  }

  /** A head read from a stream is the head of a valid item encoded there. */
  lemma RefOfHead(src: bytes)
    requires src != [] && ReadHead(src).Some? && ReadHead(src).value.Back?
    ensures var Back(dist, len, size) := ReadHead(src).value;
            Ref(dist, len).Valid() && Ref(dist, len).Encode() == src[..size]
  {
    var ctrl: nat := src[0];
    var Back(dist, len, size) := ReadHead(src).value;
    var high: nat, low: nat := ctrl % 32, src[size - 1];
    assert (high * 256 + low) / 256 == high && (high * 256 + low) % 256 == low;
    assert ctrl == high + ctrl / 32 * 32;
  }

  /** One encoded item in front of `rest` is undone by one step of the decoder. */
  lemma {:induction false} DecodeItem(item: Item, rest: bytes, out: bytes, cap: nat)
    requires item.Valid() && Apply(out, item).Some? && |Apply(out, item).value| <= cap
    requires |out| <= cap
    ensures Decode(item.Encode() + rest, out, cap) == Decode(rest, Apply(out, item).value, cap)
  {
    var src := item.Encode() + rest;
    match item
    case Literal(data) =>
      assert src[1..|data| + 1] == data && src[|data| + 1..] == rest;
    case Ref(dist, len) =>
      HeadOfRef(item, rest);
      assert src[|item.Encode()|..] == rest;
  }

  /** Completeness: every stream of valid items whose meaning fits is decoded to it. */
  lemma {:induction false} DecodeEncoded(items: seq<Item>, out: bytes, cap: nat)
    requires AllValid(items) && Meaning(out, items).Some? && |Meaning(out, items).value| <= cap
    requires |out| <= cap
    ensures Decode(Encode(items), out, cap) == Ok(Meaning(out, items).value)
    decreases |items|
  {
    if items != [] {
      var next := Apply(out, items[0]).value;
      MeaningGrows(next, items[1..]);
      DecodeItem(items[0], Encode(items[1..]), out, cap);
      DecodeEncoded(items[1..], next, cap);
    }
  }

  /** What the decoder consumes first is one valid item. */
  lemma FirstItem(src: bytes, out: bytes, cap: nat) returns (item: Item, size: nat)
    requires |out| <= cap && src != [] && Decode(src, out, cap).Ok?
    ensures item.Valid() && 0 < size <= |src| && item.Encode() == src[..size]
    ensures Apply(out, item).Some? && |Apply(out, item).value| <= cap
    ensures Decode(src, out, cap) == Decode(src[size..], Apply(out, item).value, cap)
  {
    match ReadHead(src).value {
      case Run(count) =>
        item, size := Literal(src[1..1 + count]), 1 + count;
        assert item.Encode() == src[..size];
      case Back(dist, len, headSize) =>
        item, size := Ref(dist, len), headSize;
        RefOfHead(src);
    }
  }

  /** Soundness: whatever is decoded is the meaning of valid items that encode to `src`. */
  lemma {:induction false} DecodeSound(src: bytes, out: bytes, cap: nat) returns (items: seq<Item>)
    requires |out| <= cap && Decode(src, out, cap).Ok?
    ensures AllValid(items) && Encode(items) == src
    ensures Meaning(out, items) == Some(Decode(src, out, cap).value)
    ensures |Decode(src, out, cap).value| <= cap
    decreases |src|
  {
    if src == [] {
      items := [];
    } else {
      var item, size := FirstItem(src, out, cap);
      var rest := DecodeSound(src[size..], Apply(out, item).value, cap);
      items := [item] + rest;
      assert items[1..] == rest;
      assert src == src[..size] + src[size..];
    }
  }

  /** Each stream is the encoding of at most one list of items. */
  lemma {:induction false} EncodeInjective(a: seq<Item>, b: seq<Item>)
    requires AllValid(a) && AllValid(b) && Encode(a) == Encode(b)
    ensures a == b
    decreases |a|
  {
    if a != [] && b != [] {
      var ea, eb := a[0].Encode(), b[0].Encode();
      var whole := Encode(a);
      assert whole == ea + Encode(a[1..]) && whole == eb + Encode(b[1..]);
      assert ea[0] == whole[0] == eb[0] && ea[1] == whole[1] == eb[1];
      assert |ea| == |eb|;
      assert ea == whole[..|ea|] == eb;
      assert a[0] == b[0] by {
        if a[0].Literal? {
          assert a[0].data == ea[1..] && b[0].data == eb[1..];
        } else if |ea| == 3 {
          assert ea[2] == eb[2];
        }
      }
      assert Encode(a[1..]) == whole[|ea|..] == Encode(b[1..]);
      EncodeInjective(a[1..], b[1..]);
    }
  }

  /** lzf_decompress: writes the decoded bytes to `dst` and returns their number,
      or returns 0 and sets errno. */
  method Decompress(src: array<byte>, dst: array<byte>) returns (n: nat, errno: Option<Error>)
    requires src.Length > 0 && src != dst
    modifies dst
    ensures n <= dst.Length
    ensures Decode(src[..], [], dst.Length) ==
            if errno == None then Ok(dst[..n]) else Err(errno.value)
    ensures n == 0 <==> errno != None
    ensures errno == None ==> Untouched(n, dst[..], old(dst[..]))
  {
    var ip, op := 0, 0;
    assert src[0..] == src[..] && dst[..0] == [];
    while ip < src.Length
      invariant 0 <= ip <= src.Length && 0 <= op <= dst.Length
      invariant op > 0 || ip == 0
      invariant Untouched(op, dst[..], old(dst[..]))
      invariant Decode(src[..], [], dst.Length) == Decode(src[ip..], dst[..op], dst.Length)
      decreases src.Length - ip
    {
      if src[ip] < 32 {
        ip, op, errno := LiteralRun(src, ip, dst, op);
      } else {
        ip, op, errno := BackReference(src, ip, dst, op);
      }
      if errno != None {
        return 0, errno;
      }
    }
    assert src[ip..] == [];
    return op, None;
  }

  /** Nothing is written behind the output. */
  ghost predicate Untouched(op: nat, now: bytes, was: bytes) {
    |now| == |was| && forall k :: op <= k < |now| ==> now[k] == was[k]
  }

  /** The literal branch, lzf_d.c:68-93. */
  method LiteralRun(src: array<byte>, start: nat, dst: array<byte>, out: nat)
    returns (ip: nat, op: nat, errno: Option<Error>)
    requires src != dst && start < src.Length && out <= dst.Length && src[start] < 32
    modifies dst
    ensures Decode(src[start..], old(dst[..out]), dst.Length) == Step(src, ip, dst, op, errno)
    ensures errno == None ==> start < ip <= src.Length && out < op <= dst.Length
    ensures errno == None ==> Untouched(op, dst[..], old(dst[..]))
  {
    ghost var rest := src[start..];
    ip, op := start + 1, out;
    var count := src[start] as int + 1;
    assert ReadHead(rest) == Some(Run(count));
    if op + count > dst.Length {
      return ip, op, Some(E2BIG);
    }
    if ip + count > src.Length {
      return ip, op, Some(EINVAL);
    }
    assert rest[1..1 + count] == src[ip..ip + count] && rest[1 + count..] == src[ip + count..];
    op := CopyLiteral(src, ip, dst, op, count);
    ip := ip + count;
    errno := None;
  }

  /** The back-reference branch, lzf_d.c:94-144. */
  method BackReference(src: array<byte>, start: nat, dst: array<byte>, out: nat)
    returns (ip: nat, op: nat, errno: Option<Error>)
    requires src != dst && start < src.Length && out <= dst.Length && src[start] >= 32
    modifies dst
    ensures Decode(src[start..], old(dst[..out]), dst.Length) == Step(src, ip, dst, op, errno)
    ensures errno == None ==> start < ip <= src.Length && out < op <= dst.Length
    ensures errno == None ==> Untouched(op, dst[..], old(dst[..]))
  {
    ghost var rest := src[start..];
    ip, op := start + 1, out;
    var ctrl: int := src[start];
    var len := ctrl / 32;
    var ref := op - ctrl % 32 * 256 - 1;
    if ip >= src.Length {
      return ip, op, Some(EINVAL);
    }
    if len == 7 {
      len := len + src[ip];
      ip := ip + 1;
      if ip >= src.Length {
        return ip, op, Some(EINVAL);
      }
    }
    ref := ref - src[ip];
    ip := ip + 1;
    assert ReadHead(rest) == Some(Back(op - ref, len + 2, ip - start));
    assert rest[ip - start..] == src[ip..];
    if op + len + 2 > dst.Length {
      return ip, op, Some(E2BIG);
    }
    if ref < 0 {
      return ip, op, Some(EINVAL);
    }
    op := CopyReference(dst, ref, op, len);
    errno := None;
  }

  /** What is left to decode after one branch: the error, or the rest of the input. */
  ghost function Step(src: array<byte>, ip: nat, dst: array<byte>, op: nat, errno: Option<Error>): Result<bytes, Error>
    reads src, dst
  {
    if errno != None then Err(errno.value)
    else if ip <= src.Length && op <= dst.Length then Decode(src[ip..], dst[..op], dst.Length)
    else Err(E2BIG)
  }

  /** The literal-run loop of lzf_d.c:89-91. */
  method CopyLiteral(src: array<byte>, ip: nat, dst: array<byte>, op: nat, count: nat) returns (end: nat)
    requires src != dst && count > 0 && ip + count <= src.Length && op + count <= dst.Length
    modifies dst
    ensures end == op + count
    ensures dst[..end] == old(dst[..op]) + src[ip..ip + count]
    ensures Untouched(end, dst[..], old(dst[..]))
  {
    var ctrl, i := count, ip;
    end := op;
    while ctrl > 0
      invariant 0 <= ctrl <= count && i == ip + (count - ctrl) && end == op + (count - ctrl)
      invariant dst[..end] == old(dst[..op]) + src[ip..i]
      invariant Untouched(end, dst[..], old(dst[..]))
    {
      dst[end] := src[i];
      end, i := end + 1, i + 1;
      ctrl := ctrl - 1;
      assert src[ip..i] == src[ip..i - 1] + [src[i - 1]];
    }
  }

  /** The back-reference loop of lzf_d.c:137-142: two bytes, then `len` more. */
  method CopyReference(dst: array<byte>, start: nat, op: nat, len: nat) returns (end: nat)
    requires start < op && len > 0 && op + len + 2 <= dst.Length
    modifies dst
    ensures end == op + len + 2
    ensures dst[..end] == CopyBack(old(dst[..op]), op - start, len + 2)
    ensures Untouched(end, dst[..], old(dst[..]))
  {
    ghost var goal, cur := CopyBack(dst[..op], op - start, len + 2), dst[..op];
    var ref, left := start, len;
    end := op;
    dst[end] := dst[ref];
    end, ref := end + 1, ref + 1;
    cur := Extended(dst, cur, op - start);
    assert goal == CopyBack(cur, op - start, len + 1);
    dst[end] := dst[ref];
    end, ref := end + 1, ref + 1;
    cur := Extended(dst, cur, op - start);
    while left > 0
      invariant 0 <= left <= len && end == op + 2 + (len - left) && ref == start + 2 + (len - left)
      invariant Untouched(end, dst[..], old(dst[..]))
      invariant dst[..end] == cur && goal == CopyBack(cur, op - start, left)
    {
      dst[end] := dst[ref];
      end, ref := end + 1, ref + 1;
      left := left - 1;
      cur := Extended(dst, cur, op - start);
    }
  }

  /** One copied byte behind `cur`. */
  lemma Extended(dst: array<byte>, cur: bytes, dist: nat) returns (next: bytes)
    requires |cur| < dst.Length && 1 <= dist <= |cur|
    requires dst[..|cur|] == cur && dst[|cur|] == cur[|cur| - dist]
    ensures next == cur + [cur[|cur| - dist]] && dst[..|next|] == next
  {
    next := cur + [cur[|cur| - dist]];
  }
}
