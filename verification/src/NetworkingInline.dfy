/** Inline requests, networking.c:715-753: what the words of a line are, and what one
    pass makes of a line. */
module NetworkingInline {
  import opened Common
  import opened Resp
  import opened NetworkingModel
  import opened NetworkingChunks

  const SPACE: byte := 32

  // ---- words ------------------------------------------------------------------

  /** An argument an inline request can carry. */
  predicate Word(w: bytes) {
    w != [] && SPACE !in w
  }

  predicate AllWords(ws: seq<bytes>) {
    forall i :: 0 <= i < |ws| ==> Word(ws[i])
  }

  function Spaces(n: nat): (r: bytes)
    ensures |r| == n && forall i :: 0 <= i < n ==> r[i] == SPACE
  {
    if n == 0 then [] else [SPACE] + Spaces(n - 1)
  }

  /** The line with `gaps[i]` spaces before the i-th word and the last gap at its end. */
  function Padded(ws: seq<bytes>, gaps: seq<nat>): bytes
    requires |gaps| == |ws| + 1
  {
    if ws == [] then Spaces(gaps[0]) else Spaces(gaps[0]) + ws[0] + Padded(ws[1..], gaps[1..])
  }

  /** A gap for each word and one behind the last, with a space between two words. */
  predicate GapsOk(ws: seq<bytes>, gaps: seq<nat>) {
    |gaps| == |ws| + 1 && forall i :: 0 < i < |ws| ==> gaps[i] > 0
  }

  /** `ws` are the words of the line `s`. */
  ghost predicate SplitsInto(s: bytes, ws: seq<bytes>) {
    AllWords(ws) && exists gaps: seq<nat> :: GapsOk(ws, gaps) && Padded(ws, gaps) == s
  }

  lemma {:induction false} WordsSkip(n: nat, s: bytes)
    ensures Words(Spaces(n) + s, []) == Words(s, [])
  {
    if n == 0 {
      assert Spaces(0) + s == s;
    } else {
      assert (Spaces(n) + s)[1..] == Spaces(n - 1) + s;
      WordsSkip(n - 1, s);
    }
  }

  lemma {:induction false} WordsTake(w: bytes, piece: bytes, s: bytes)
    requires SPACE !in w
    ensures Words(w + s, piece) == Words(s, piece + w)
    decreases |w|
  {
    if w == [] {
      assert w + s == s && piece + w == piece;
    } else {
      assert (w + s)[1..] == w[1..] + s && (w + s)[0] == w[0];
      WordsTake(w[1..], piece + [w[0]], s);
      assert piece + [w[0]] + w[1..] == piece + w;
    }
  }

  lemma WordEnds(w: bytes, s: bytes)
    requires Word(w) && (s == [] || s[0] == SPACE)
    ensures Words(s, w) == [w] + Words(s, [])
  {
    if s != [] {
      assert Words(s, []) == [] + Words(s[1..], []);
    }
  }

  lemma PaddedFirst(ws: seq<bytes>, gaps: seq<nat>)
    requires |gaps| == |ws| + 1 && (gaps[0] > 0 || (ws == [] && gaps[0] == 0))
    ensures Padded(ws, gaps) == [] || Padded(ws, gaps)[0] == SPACE
  {
  }

  /** Words joined by any number of spaces, with any spaces around them, are split back. */
  lemma {:induction false} WordsOfPadded(ws: seq<bytes>, gaps: seq<nat>)
    requires AllWords(ws) && GapsOk(ws, gaps)
    ensures Words(Padded(ws, gaps), []) == ws
    decreases |ws|
  {
    if ws == [] {
      assert Spaces(gaps[0]) + [] == Spaces(gaps[0]);
      WordsSkip(gaps[0], []);
    } else {
      var rest := Padded(ws[1..], gaps[1..]);
      assert Padded(ws, gaps) == Spaces(gaps[0]) + (ws[0] + rest);
      WordsSkip(gaps[0], ws[0] + rest);
      WordsTake(ws[0], [], rest);
      assert [] + ws[0] == ws[0];
      assert Word(ws[0]);
      forall i | 0 <= i < |ws[1..]| ensures Word(ws[1..][i]) {
        assert ws[1..][i] == ws[i + 1];
      }
      WordsOfPadded(ws[1..], gaps[1..]);
      PaddedFirst(ws[1..], gaps[1..]);
      WordEnds(ws[0], rest);
      assert ws == [ws[0]] + ws[1..];
    }
  }

  lemma OnePadded(w: bytes)
    ensures GapsOk([w], [0, 0]) && Padded([w], [0, 0]) == w
  {
    assert [w][1..] == [] && [0, 0][1..] == [0];
    assert Padded([], [0]) == [];
  }

  /** One more space at the front. */
  lemma GrowGap(ws: seq<bytes>, gaps: seq<nat>)
    requires GapsOk(ws, gaps)
    ensures var more := [gaps[0] + 1] + gaps[1..];
            GapsOk(ws, more) && more[0] > 0 && Padded(ws, more) == [SPACE] + Padded(ws, gaps)
  {
    var more: seq<nat> := [gaps[0] + 1] + gaps[1..];
    assert more[1..] == gaps[1..];
    assert Spaces(gaps[0] + 1) == [SPACE] + Spaces(gaps[0]);
  }

  /** One more word at the front. */
  lemma GrowWord(w: bytes, ws: seq<bytes>, gaps: seq<nat>)
    requires Word(w) && AllWords(ws) && GapsOk(ws, gaps) && gaps[0] > 0
    ensures AllWords([w] + ws) && GapsOk([w] + ws, [0] + gaps)
    ensures Padded([w] + ws, [0] + gaps) == w + Padded(ws, gaps)
  {
    assert ([w] + ws)[1..] == ws && ([0] + gaps)[1..] == gaps;
    assert Spaces(0) + w == w;
  }

  /** How the line `piece + s` is made of its words. */
  lemma {:induction false} WordsPad(s: bytes, piece: bytes) returns (gaps: seq<nat>)
    requires SPACE !in piece
    ensures AllWords(Words(s, piece)) && GapsOk(Words(s, piece), gaps)
    ensures Padded(Words(s, piece), gaps) == piece + s
    decreases |s|
  {
    hide AllWords, Padded, Spaces;
    if s == [] {
      NoMoreWords(piece);
      gaps := if piece == [] then [0] else [0, 0];
    } else if s[0] == SPACE {
      var rest := Words(s[1..], []);
      gaps := WordsPad(s[1..], []);
      GrowGap(rest, gaps);
      gaps := [gaps[0] + 1] + gaps[1..];
      assert [] + s[1..] == s[1..] && [SPACE] + s[1..] == s;
      if piece == [] {
        assert [] + rest == rest && piece + s == s;
      } else {
        GrowWord(piece, rest, gaps);
        gaps := [0] + gaps;
      }
    } else {
      gaps := WordsPad(s[1..], piece + [s[0]]);
      assert piece + [s[0]] + s[1..] == piece + s;
    }
  }

  lemma NoMoreWords(piece: bytes)
    requires SPACE !in piece
    ensures var ws, gaps := Words([], piece), if piece == [] then [0] else [0, 0];
            AllWords(ws) && GapsOk(ws, gaps) && Padded(ws, gaps) == piece + []
  {
    if piece != [] { OnePadded(piece); }
  }

  /** The words of a line are the one list of non-empty pieces without spaces that
      the line spells out with spaces between them. */
  lemma {:induction false} WordsCharacterised(s: bytes, ws: seq<bytes>)
    ensures SplitsInto(s, ws) <==> ws == Words(s, [])
  {
    if SplitsInto(s, ws) {
      var gaps: seq<nat> :| GapsOk(ws, gaps) && Padded(ws, gaps) == s;
      WordsOfPadded(ws, gaps);
    }
    var gaps := WordsPad(s, []);
    assert [] + s == s;
  }

  // ---- the end of a line ------------------------------------------------------

  /** The first line of a buffer ends at `n`: its bytes hold no NUL and no "\r\n". */
  predicate EndsAt(s: bytes, n: nat) {
    && n + 2 <= |s| && s[n] == CR && s[n + 1] == LF
    && forall i :: 0 <= i < n ==> s[i] != 0 && !(s[i] == CR && s[i + 1] == LF)
  }

  lemma {:induction false} FindCrlfIs(s: bytes)
    ensures match FindCrlf(s)
      case Some(n) => EndsAt(s, n)
      case None => forall n: nat :: !EndsAt(s, n)
    decreases |s|
  {
    if |s| >= 2 && s[0] != 0 && !(s[0] == CR && s[1] == LF) {
      FindCrlfIs(s[1..]);
      match FindCrlf(s[1..])
      case Some(n) => EndsLater(s, n);
      case None =>
        forall n: nat ensures !EndsAt(s, n) {
          if EndsAt(s, n) { EndsLater(s, n - 1); }
        }
    }
  }

  lemma EndsLater(s: bytes, n: nat)
    requires s != [] && s[0] != 0 && (|s| >= 2 ==> !(s[0] == CR && s[1] == LF))
    ensures EndsAt(s[1..], n) <==> EndsAt(s, n + 1)
  {
    var t := s[1..];
    if EndsAt(t, n) {
      assert s[n + 1] == t[n] && s[n + 2] == t[n + 1];
      forall i | 0 <= i < n + 1 ensures s[i] != 0 && !(s[i] == CR && s[i + 1] == LF) {
        if i > 0 { assert s[i] == t[i - 1] && s[i + 1] == t[i]; }
      }
    }
    if EndsAt(s, n + 1) {
      assert s[n + 1] == t[n] && s[n + 2] == t[n + 1];
      forall i | 0 <= i < n ensures t[i] != 0 && !(t[i] == CR && t[i + 1] == LF) {
        assert s[i + 1] == t[i] && s[i + 2] == t[i + 1];
      }
    }
  }

  lemma EndsOnce(s: bytes, n: nat)
    requires EndsAt(s, n)
    ensures forall m: nat :: EndsAt(s, m) ==> m == n
  {
  }

  // ---- one line ---------------------------------------------------------------

  /** A line a client may send as an inline request; it may be empty. */
  predicate Plain(l: bytes) {
    && (l != [] ==> l[0] != STAR)
    && forall i :: 0 <= i < |l| ==> l[i] != 0 && !(i + 1 < |l| && l[i] == CR && l[i + 1] == LF)
  }

  /** A line dispatches its words, an empty one nothing. */
  function Dispatch(done: seq<Command>, l: bytes): seq<Command> {
    if Words(l, []) == [] then done else done + [Words(l, [])]
  }

  lemma LineEnd(l: bytes, t: bytes)
    requires Plain(l)
    ensures FindCrlf(l + CRLF + t) == Some(|l|)
  {
    var s := l + CRLF + t;
    assert EndsAt(s, |l|);
    FindCrlfIs(s);
  }

  lemma NoLineEnd(l: bytes, p: nat)
    requires Plain(l) && p < |l| + 2
    ensures FindCrlf((l + CRLF)[..p]) == None
  {
    FindCrlfIs((l + CRLF)[..p]);
  }

  /** One turn of the loop of processInputBuffer. */
  lemma InlinePass(c: Client)
    requires c.bulklen == -1 && c.buf != [] && !c.closing && c.argv == [] && c.multibulklen == 0
    requires c.req == Inline || (c.req == Unknown && c.buf[0] != STAR)
    ensures ProcessInput(c) ==
      match FindCrlf(c.buf)
      case None => c.(req := Inline, closing := |c.buf| > INLINE_MAX_SIZE)
      case Some(i) => ProcessInput(Client(c.buf[i + 2..], [], 0, -1, Unknown, false,
                                          Dispatch(c.dispatched, c.buf[..i])))
  {
    hide FindCrlf, Words;
  }

  lemma FirstByte(l: bytes, rest: bytes, x: bytes)
    requires Plain(l) && x != [] && x <= l + CRLF + rest
    ensures x[0] != STAR
  {
    assert x[0] == (l + CRLF + rest)[0];
  }
}
