/**
Which lines sdssplitargs accepts and what it makes of them (sds.c:474-579), told by
how a line is written: words with an optional quoted part behind their bare one,
and blanks around them. A line is split into the values of its words, and it is
refused exactly when behind some whole words it has a quote that is never closed or
that is followed by something else than a blank.
*/
module SdsSplit {
  import opened Common
  import opened SdsRepr

  // ---- characters -----------------------------------------------------------

  lemma Blanks(b: byte)
    ensures QUOTE == '\"' as int && SINGLE == '\'' as int && BACKSLASH == '\\' as int && X == 'x' as int
    ensures IsSpace(b) <==> b as char in " \t\n\r\U{0B}\U{0C}"
    ensures EndsToken(b) <==> b as char in " \t\n\r\0"
  {
  }

  /** The letters behind a backslash that stand for something else than themselves. */
  lemma Letters(b: byte)
    ensures Unescape('n' as int) == '\n' as int && Unescape('r' as int) == '\r' as int
    ensures Unescape('t' as int) == '\t' as int
    ensures Unescape('b' as int) == '\U{08}' as int && Unescape('a' as int) == '\U{07}' as int
    ensures b as char !in "nrtba" ==> Unescape(b) == b
  {
  }

  /** Hexadecimal digits, of which the letters may be upper case. */
  lemma HexDigits(b: byte)
    ensures IsHexDigit(b) <==> b as char in "0123456789abcdefABCDEF"
    ensures IsHexDigit(b) ==>
      var lower: int := if b as char in "ABCDEF" then b + 32 else b;
      "0123456789abcdef"[HexDigitToInt(b)] as int == lower
  {
  }

  /** The form of a byte that sdscatrepr writes. */
  lemma Forms(b: byte)
    ensures ' ' <= b as char <= '~' && b as char !in "\\\"" ==> Escape(b) == [b]
    ensures b as char in "\\\"" ==> Escape(b) == [BACKSLASH, b]
    ensures b as char in "\n\r\t\U{07}\U{08}" ==> exists l: byte :: l as char in "nrtba" && Escape(b) == [BACKSLASH, l]
    ensures !(' ' <= b as char <= '~') && b as char !in "\n\r\t\U{07}\U{08}" ==>
      |Escape(b)| == 4 && Escape(b)[..2] == [BACKSLASH, X]
    ensures |Escape(b)| == 4 ==>
      var digits: string := "0123456789abcdef";
      Escape(b)[2] as char == digits[b as int / 16] && Escape(b)[3] as char == digits[b as int % 16]
  {
    assert 'n' as int == 110 && 'r' as int == 114 && 't' as int == 116 && 'b' as int == 98 && 'a' as int == 97;
  }

  // ---- how a line is written --------------------------------------------------

  /** A part of a quoted text that stands for one byte. */
  datatype Unit = Plain(b: byte) | Slash(b: byte) | Hex(high: byte, low: byte)

  function UnitText(u: Unit): (t: bytes)
    ensures t != []
  {
    match u
    case Plain(b) => [b]
    case Slash(b) => [BACKSLASH, b]
    case Hex(high, low) => [BACKSLASH, X, high, low]
  }

  function UnitValue(mode: Mode, u: Unit): byte {
    match u
    case Plain(b) => b
    case Slash(b) => if mode == Double then Unescape(b) else b
    case Hex(high, low) => HexDigitToInt(high) * 16 + HexDigitToInt(low)
  }

  function Spell(us: seq<Unit>): bytes {
    if us == [] then [] else UnitText(us[0]) + Spell(us[1..])
  }

  function Meaning(mode: Mode, us: seq<Unit>): (r: bytes)
    ensures |r| == |us|
  {
    seq(|us|, i requires 0 <= i < |us| => UnitValue(mode, us[i]))
  }

  function Mark(mode: Mode): byte { if mode == Single then SINGLE else QUOTE }

  predicate StartsHex(s: bytes) { |s| >= 2 && IsHexDigit(s[0]) && IsHexDigit(s[1]) }

  /** The part can stand before `after` in quotes of that kind. Between double quotes
      a backslash makes one byte of two, or of four; between single quotes it does so
      only before a single quote. */
  predicate UnitOk(mode: Mode, u: Unit, after: bytes) {
    if mode == Double then
      match u
      case Plain(b) => b != 0 && b != QUOTE && b != BACKSLASH
      case Slash(b) => b != 0 && !(b == X && StartsHex(after))
      case Hex(high, low) => IsHexDigit(high) && IsHexDigit(low)
    else
      match u
      case Plain(b) => b != 0 && b != SINGLE && !(b == BACKSLASH && after != [] && after[0] == SINGLE)
      case Slash(b) => b == SINGLE
      case Hex(_, _) => false
  }

  predicate UnitsOk(mode: Mode, us: seq<Unit>, rest: bytes) {
    us != [] ==> UnitOk(mode, us[0], Spell(us[1..]) + rest) && UnitsOk(mode, us[1..], rest)
  }

  /** A word: bytes without quotes, and behind them a quoted text unless the mode is Bare. */
  datatype Word = Word(bare: bytes, mode: Mode, units: seq<Unit>)

  predicate BareByte(b: byte) {
    !EndsToken(b) && b != QUOTE && b != SINGLE
  }

  predicate BareOk(s: bytes) {
    (forall i :: 0 <= i < |s| ==> BareByte(s[i])) && (s != [] ==> !IsSpace(s[0]))
  }

  predicate WordOk(w: Word) {
    && BareOk(w.bare)
    && if w.mode == Bare then w.bare != [] && w.units == [] else UnitsOk(w.mode, w.units, [Mark(w.mode)])
  }

  function Text(w: Word): bytes {
    w.bare + if w.mode == Bare then [] else [Mark(w.mode)] + Spell(w.units) + [Mark(w.mode)]
  }

  function Value(w: Word): bytes {
    w.bare + Meaning(w.mode, w.units)
  }

  predicate AllSpace(s: bytes) {
    forall i :: 0 <= i < |s| ==> IsSpace(s[i])
  }

  datatype Piece = Piece(blanks: bytes, word: Word)

  function Line(ps: seq<Piece>, tail: bytes): bytes {
    if ps == [] then tail else ps[0].blanks + Text(ps[0].word) + Line(ps[1..], tail)
  }

  function Values(ps: seq<Piece>): seq<bytes> {
    seq(|ps|, i requires 0 <= i < |ps| => Value(ps[i].word))
  }

  /** What can follow a word: a closing quote may be followed by any blank, a bare
      word ends at a space, a tab or a line end. */
  predicate SepOk(mode: Mode, after: bytes) {
    after == [] || if mode == Bare then EndsToken(after[0]) && after[0] != 0 else IsSpace(after[0])
  }

  predicate PiecesOk(ps: seq<Piece>, tail: bytes) {
    ps != [] ==>
      && AllSpace(ps[0].blanks)
      && WordOk(ps[0].word)
      && SepOk(ps[0].word.mode, Line(ps[1..], tail))
      && PiecesOk(ps[1..], tail)
  }

  /** A word that cannot be read: its quote is not closed, or something else than a
      blank follows the closing quote. */
  ghost predicate Broken(t: bytes) {
    exists blanks, bare, mode, units, rest ::
      && t == blanks + (bare + ([Mark(mode)] + Spell(units) + rest))
      && AllSpace(blanks) && BareOk(bare) && mode != Bare && UnitsOk(mode, units, rest)
      && BadEnd(mode, rest)
  }

  predicate BadEnd(mode: Mode, rest: bytes) {
    || rest == []
    || (mode == Double && rest == [BACKSLASH])
    || (|rest| > 1 && rest[0] == Mark(mode) && !IsSpace(rest[1]))
  }

  predicate GoodEnd(mode: Mode, rest: bytes) {
    rest != [] && rest[0] == Mark(mode) && (|rest| == 1 || IsSpace(rest[1]))
  }

  // ---- the quoted part --------------------------------------------------------

  lemma UnitRead(mode: Mode, u: Unit, after: bytes, cur: bytes)
    requires mode != Bare && UnitOk(mode, u, after) && 0 !in after
    ensures 0 !in UnitText(u) + after
    ensures Token(UnitText(u) + after, mode, cur) == Token(after, mode, cur + [UnitValue(mode, u)])
  {
    hide HexDigitToInt, Unescape;
    var s := UnitText(u) + after;
    assert s[|UnitText(u)|..] == after;
    if u.Hex? { assert s[2] == u.high && s[3] == u.low; }
    if u.Slash? {
      assert s[0] == BACKSLASH && s[1] == u.b;
      assert |after| >= 2 ==> s[2] == after[0] && s[3] == after[1];
    }
  }

  lemma MeaningFirst(mode: Mode, us: seq<Unit>, cur: bytes)
    requires us != []
    ensures cur + [UnitValue(mode, us[0])] + Meaning(mode, us[1..]) == cur + Meaning(mode, us)
  {
    hide UnitValue;
    assert Meaning(mode, us) == [UnitValue(mode, us[0])] + Meaning(mode, us[1..]);
  }

  lemma {:induction false} UnitsRead(mode: Mode, us: seq<Unit>, rest: bytes, cur: bytes)
    requires mode != Bare && UnitsOk(mode, us, rest) && 0 !in rest
    ensures 0 !in Spell(us) + rest
    ensures Token(Spell(us) + rest, mode, cur) == Token(rest, mode, cur + Meaning(mode, us))
    decreases |us|
  {
    hide Token, UnitOk, UnitText, UnitValue, Meaning;
    if us == [] {
      assert |Meaning(mode, us)| == 0;
      assert Spell(us) + rest == rest && cur + Meaning(mode, us) == cur;
    } else {
      var after, v := Spell(us[1..]) + rest, UnitValue(mode, us[0]);
      UnitsRead(mode, us[1..], rest, cur + [v]);
      UnitRead(mode, us[0], after, cur);
      assert Spell(us) + rest == UnitText(us[0]) + after;
      MeaningFirst(mode, us, cur);
    }
  }

  lemma EndRead(mode: Mode, rest: bytes, cur: bytes)
    requires mode != Bare && 0 !in rest
    ensures GoodEnd(mode, rest) ==> Token(rest, mode, cur) == Some((cur, rest[1..]))
    ensures BadEnd(mode, rest) ==> Token(rest, mode, cur) == None
  {
  }

  /** Every text is read part by part up to the end of its quote. */
  lemma {:induction false} Units(mode: Mode, s: bytes) returns (us: seq<Unit>, rest: bytes)
    requires mode != Bare && 0 !in s
    ensures s == Spell(us) + rest && UnitsOk(mode, us, rest) && (GoodEnd(mode, rest) || BadEnd(mode, rest))
    decreases |s|
  {
    if GoodEnd(mode, s) || BadEnd(mode, s) {
      us, rest := [], s;
      assert Spell([]) + s == s;
    } else {
      var u := FirstUnit(mode, s);
      var n := |UnitText(u)|;
      var more;
      more, rest := Units(mode, s[n..]);
      us := [u] + more;
      assert us[1..] == more && s == UnitText(u) + s[n..];
      assert Spell(us) + rest == UnitText(u) + (Spell(more) + rest);
    }
  }

  lemma FirstUnit(mode: Mode, s: bytes) returns (u: Unit)
    requires mode != Bare && 0 !in s && !GoodEnd(mode, s) && !BadEnd(mode, s)
    ensures UnitText(u) <= s && UnitOk(mode, u, s[|UnitText(u)|..])
  {
    if mode == Double && HexEscape(s) {
      u := Hex(s[2], s[3]);
    } else if mode == Double && s[0] == BACKSLASH {
      u := Slash(s[1]);
    } else if mode == Single && s[0] == BACKSLASH && |s| > 1 && s[1] == SINGLE {
      u := Slash(SINGLE);
    } else {
      u := Plain(s[0]);
    }
  }

  // ---- a word -----------------------------------------------------------------

  lemma {:induction false} BareRead(bare: bytes, after: bytes, cur: bytes)
    requires (forall i :: 0 <= i < |bare| ==> BareByte(bare[i])) && 0 !in after
    ensures 0 !in bare + after
    ensures Token(bare + after, Bare, cur) == Token(after, Bare, cur + bare)
    decreases |bare|
  {
    if bare == [] {
      assert bare + after == after && cur + bare == cur;
    } else {
      var s := bare + after;
      assert s[1..] == bare[1..] + after && s[0] == bare[0];
      BareRead(bare[1..], after, cur + [bare[0]]);
      assert cur + [bare[0]] + bare[1..] == cur + bare;
    }
  }

  lemma MarkRead(mode: Mode, s: bytes, cur: bytes)
    requires mode != Bare && 0 !in s
    ensures 0 !in [Mark(mode)] + s
    ensures Token([Mark(mode)] + s, Bare, cur) == Token(s, mode, cur)
  {
    var t := [Mark(mode)] + s;
    assert t[1..] == s;
  }

  /** A word and the quoted text behind it. */
  lemma QuotedRead(bare: bytes, mode: Mode, us: seq<Unit>, rest: bytes)
    requires BareOk(bare) && mode != Bare && UnitsOk(mode, us, rest) && 0 !in rest
    ensures var t := bare + ([Mark(mode)] + Spell(us) + rest);
      && 0 !in t
      && (GoodEnd(mode, rest) ==> Token(t, Bare, []) == Some((bare + Meaning(mode, us), rest[1..])))
      && (BadEnd(mode, rest) ==> Token(t, Bare, []) == None)
  {
    hide Token, UnitsOk, Spell, BadEnd, GoodEnd;
    UnitsRead(mode, us, rest, bare);
    MarkRead(mode, Spell(us) + rest, bare);
    EndRead(mode, rest, bare + Meaning(mode, us));
    BareRead(bare, [Mark(mode)] + (Spell(us) + rest), []);
    assert [Mark(mode)] + (Spell(us) + rest) == [Mark(mode)] + Spell(us) + rest;
    assert [] + bare == bare;
  }

  /** Only the closing quote matters to the parts before it. */
  lemma {:induction false} MarkEnough(mode: Mode, us: seq<Unit>, a: bytes, b: bytes)
    requires mode != Bare && a != [] && b != [] && a[0] == b[0] == Mark(mode) && UnitsOk(mode, us, a)
    ensures UnitsOk(mode, us, b)
    decreases |us|
  {
    hide UnitText;
    if us != [] {
      MarkEnough(mode, us[1..], a, b);
      var t := Spell(us[1..]);
      assert |t| >= 1 ==> (t + a)[0] == (t + b)[0] == t[0];
      assert |t| >= 2 ==> (t + a)[1] == (t + b)[1] == t[1];
      assert |t| == 1 ==> (t + a)[1] == Mark(mode) == (t + b)[1];
      assert |t| == 0 ==> t + a == a && t + b == b;
    }
  }

  /** A word in front of what may follow it. */
  lemma WordRead(w: Word, after: bytes)
    requires WordOk(w) && SepOk(w.mode, after) && 0 !in after
    ensures var t := Text(w) + after;
      && 0 !in t && t != [] && !IsSpace(t[0])
      && Token(t, Bare, []) ==
           Some((Value(w), if w.mode == Bare && after != [] then after[1..] else after))
  {
    hide UnitsOk, Spell;
    if w.mode == Bare {
      BareRead(w.bare, after, []);
      assert [] + w.bare == w.bare && Value(w) == w.bare && Text(w) == w.bare;
      assert (w.bare + after)[0] == w.bare[0];
    } else {
      hide Token, Meaning;
      var rest := [Mark(w.mode)] + after;
      MarkEnough(w.mode, w.units, [Mark(w.mode)], rest);
      QuotedRead(w.bare, w.mode, w.units, rest);
      assert rest[1..] == after;
      assert Text(w) + after == w.bare + ([Mark(w.mode)] + Spell(w.units) + rest);
      assert (Text(w) + after)[0] == if w.bare == [] then Mark(w.mode) else w.bare[0];
    }
  }

  // ---- a line -------------------------------------------------------------------

  lemma {:induction false} SplitBlanks(blanks: bytes, s: bytes)
    requires AllSpace(blanks) && 0 !in s
    ensures 0 !in blanks + s && Split(blanks + s) == Split(s)
    decreases |blanks|
  {
    hide Token, Split;
    if blanks == [] {
      assert blanks + s == s;
    } else {
      SplitBlanks(blanks[1..], s);
      assert (blanks + s)[1..] == blanks[1..] + s && (blanks + s)[0] == blanks[0];
      assert blanks + s == [blanks[0]] + (blanks[1..] + s);
      SplitBlank(blanks + s);
    }
  }

  /** The word at the start of a line, and the rest of the line. */
  lemma WordSplit(w: Word, after: bytes)
    requires WordOk(w) && SepOk(w.mode, after) && 0 !in after
    ensures 0 !in Text(w) + after
    ensures Split(Text(w) + after) == Prefixed([Value(w)], Split(after))
  {
    hide Token, Split, WordOk, Value, Text;
    WordRead(w, after);
    SplitFirst(Text(w) + after);
    if w.mode == Bare && after != [] { SplitBlank(after); }
  }

  /** A line is split into the values of its first words and what the rest gives. */
  lemma {:induction false} SplitPieces(ps: seq<Piece>, tail: bytes)
    requires PiecesOk(ps, tail) && 0 !in tail
    ensures 0 !in Line(ps, tail)
    ensures Split(Line(ps, tail)) == Prefixed(Values(ps), Split(tail))
    decreases |ps|
  {
    hide Split, WordOk, SepOk, Text, Value, AllSpace;
    if ps == [] {
      PrefixedNone(Split(tail));
    } else {
      SplitPieces(ps[1..], tail);
      var w, after := ps[0].word, Line(ps[1..], tail);
      WordSplit(w, after);
      SplitBlanks(ps[0].blanks, Text(w) + after);
      assert Line(ps, tail) == ps[0].blanks + (Text(w) + after);
      PrefixedBoth([Value(w)], Values(ps[1..]), Split(tail));
      assert Values(ps) == [Value(w)] + Values(ps[1..]);
    }
  }

  lemma PrefixedBoth(a: seq<bytes>, b: seq<bytes>, r: Option<seq<bytes>>)
    ensures Prefixed(a, Prefixed(b, r)) == Prefixed(a + b, r)
  {
    if r.Some? { assert a + (b + r.value) == a + b + r.value; }
  }

  lemma SplitBroken(t: bytes)
    requires Broken(t) && 0 !in t
    ensures Split(t) == None
  {
    hide Token, UnitsOk, Spell, Split, BadEnd;
    var blanks, bare, mode, units, rest :|
      && t == blanks + (bare + ([Mark(mode)] + Spell(units) + rest))
      && AllSpace(blanks) && BareOk(bare) && mode != Bare && UnitsOk(mode, units, rest)
      && BadEnd(mode, rest);
    var s := bare + ([Mark(mode)] + Spell(units) + rest);
    QuotedRead(bare, mode, units, rest);
    SplitBlanks(blanks, s);
    assert s[0] == if bare == [] then Mark(mode) else bare[0];
    SplitFirst(s);
  }

  lemma {:induction false} Leading(line: bytes) returns (blanks: bytes, s: bytes)
    ensures line == blanks + s && AllSpace(blanks) && (s != [] ==> !IsSpace(s[0]))
    decreases |line|
  {
    if line == [] || !IsSpace(line[0]) {
      blanks, s := [], line;
    } else {
      blanks, s := Leading(line[1..]);
      blanks := [line[0]] + blanks;
    }
  }

  lemma {:induction false} BarePrefix(s: bytes) returns (bare: bytes, after: bytes)
    ensures s == bare + after && (forall i :: 0 <= i < |bare| ==> BareByte(bare[i]))
    ensures after != [] ==> !BareByte(after[0])
    decreases |s|
  {
    if s == [] || !BareByte(s[0]) {
      bare, after := [], s;
    } else {
      bare, after := BarePrefix(s[1..]);
      bare := [s[0]] + bare;
    }
  }

  lemma QuotedWord(bare: bytes, mode: Mode, t: bytes) returns (w: Word, after: bytes)
    requires BareOk(bare) && mode != Bare && 0 !in t
    ensures var s := bare + ([Mark(mode)] + t);
      Broken(s) || (s == Text(w) + after && WordOk(w) && SepOk(w.mode, after) && |after| < |s|)
  {
    hide UnitsOk, Spell, BareOk;
    var us, rest := Units(mode, t);
    var s := bare + ([Mark(mode)] + t);
    if GoodEnd(mode, rest) {
      w, after := Word(bare, mode, us), rest[1..];
      MarkEnough(mode, us, rest, [Mark(mode)]);
      assert rest == [Mark(mode)] + after;
      assert Text(w) + after == s;
    } else {
      w, after := Word([], Bare, []), [];
      assert s == [] + (bare + ([Mark(mode)] + Spell(us) + rest));
      assert AllSpace([]);
    }
  }

  /** The first word of a line, or a line that is broken there. */
  lemma FirstWord(s: bytes) returns (w: Word, after: bytes)
    requires 0 !in s && s != [] && !IsSpace(s[0])
    ensures Broken(s) || (s == Text(w) + after && WordOk(w) && SepOk(w.mode, after) && |after| < |s|)
  {
    hide Broken, UnitsOk, Spell;
    var bare, t := BarePrefix(s);
    assert bare != [] ==> bare[0] == s[0];
    if t == [] || EndsToken(t[0]) {
      w, after := Word(bare, Bare, []), t;
      assert bare == [] ==> t == s;
      assert t != [] ==> t[0] == s[|bare|];
      assert Text(w) == bare;
    } else {
      var mode := if t[0] == SINGLE then Single else Double;
      assert t == [Mark(mode)] + t[1..];
      w, after := QuotedWord(bare, mode, t[1..]);
    }
  }

  lemma BlanksBroken(blanks: bytes, s: bytes)
    requires AllSpace(blanks) && Broken(s)
    ensures Broken(blanks + s)
  {
    hide UnitsOk, Spell, BadEnd, BareOk;
    var b, bare, mode, units, rest :|
      && s == b + (bare + ([Mark(mode)] + Spell(units) + rest))
      && AllSpace(b) && BareOk(bare) && mode != Bare && UnitsOk(mode, units, rest)
      && BadEnd(mode, rest);
    assert blanks + s == (blanks + b) + (bare + ([Mark(mode)] + Spell(units) + rest));
    assert AllSpace(blanks + b);
  }

  /** Every line is a list of words, and then blanks or a word that cannot be read. */
  lemma {:induction false} Pieces(line: bytes) returns (ps: seq<Piece>, tail: bytes)
    requires 0 !in line
    ensures line == Line(ps, tail) && PiecesOk(ps, tail) && 0 !in tail && (AllSpace(tail) || Broken(tail))
    decreases |line|
  {
    hide WordOk, SepOk, Text, Broken;
    var blanks, s := Leading(line);
    if s == [] {
      ps, tail := [], line;
      assert blanks + [] == blanks;
    } else {
      assert forall i :: 0 <= i < |s| ==> s[i] == line[|blanks| + i];
      var w, after := FirstWord(s);
      if Broken(s) {
        ps, tail := [], line;
        BlanksBroken(blanks, s);
      } else {
        assert forall i :: 0 <= i < |after| ==> after[i] == s[|Text(w)| + i];
        var more;
        more, tail := Pieces(after);
        ps := [Piece(blanks, w)] + more;
        assert ps[1..] == more;
        assert blanks + s == blanks + Text(w) + after;
      }
    }
  }

  /** A line is accepted exactly when it is a list of words with blanks around them,
      and it is split into their values. */
  lemma SplitExact(line: bytes, args: seq<bytes>)
    requires 0 !in line
    ensures Split(line) == Some(args) <==>
      exists ps, tail :: PiecesOk(ps, tail) && AllSpace(tail) && line == Line(ps, tail) && args == Values(ps)
  {
    hide Split, PiecesOk, Line, Values, Broken;
    if ps, tail :| PiecesOk(ps, tail) && AllSpace(tail) && line == Line(ps, tail) && args == Values(ps) {
      SkipBlanksAll(tail);
      SplitPieces(ps, tail);
      assert args + [] == args;
    }
    if Split(line) == Some(args) {
      var ps, tail := Pieces(line);
      SplitPieces(ps, tail);
      if Broken(tail) { SplitBroken(tail); }
      SkipBlanksAll(tail);
      assert Values(ps) + [] == Values(ps);
    }
  }

  /** A line is refused exactly when behind some words it has a quote that is not
      closed, or that is closed before something else than a blank. */
  lemma SplitRefuses(line: bytes)
    requires 0 !in line
    ensures Split(line) == None <==> exists ps, tail :: PiecesOk(ps, tail) && Broken(tail) && line == Line(ps, tail)
  {
    hide Split, PiecesOk, Line, Values, Broken;
    if ps, tail :| PiecesOk(ps, tail) && Broken(tail) && line == Line(ps, tail) {
      LineNoNul(ps, tail);
      SplitBroken(tail);
      SplitPieces(ps, tail);
    }
    if Split(line) == None {
      var ps, tail := Pieces(line);
      SplitPieces(ps, tail);
      if AllSpace(tail) { SkipBlanksAll(tail); }
    }
  }

  lemma {:induction false} LineNoNul(ps: seq<Piece>, tail: bytes)
    requires 0 !in Line(ps, tail)
    ensures 0 !in tail
    decreases |ps|
  {
    hide Text;
    if ps != [] {
      var after := Line(ps[1..], tail);
      var head := ps[0].blanks + Text(ps[0].word);
      assert forall i :: 0 <= i < |after| ==> (head + after)[|head| + i] == after[i];
      LineNoNul(ps[1..], tail);
    }
  }

  // ---- lists in any style -------------------------------------------------------

  /** Between single quotes only the single quote needs a backslash. */
  function Slashed(a: bytes): bytes {
    if a == [] then []
    else (if a[0] == SINGLE then [BACKSLASH, SINGLE] else [a[0]]) + Slashed(a[1..])
  }

  /** An argument as it is, between double quotes, or between single ones. */
  function Styled(mode: Mode, a: bytes): bytes {
    match mode
    case Bare => a
    case Double => Repr(a)
    case Single => [SINGLE] + Slashed(a) + [SINGLE]
  }

  /** The argument can be written like that: as it is when it is not empty and holds
      no blanks, quotes or NULs; between single quotes when it holds no NUL and does
      not end in a backslash; between double quotes always. */
  predicate CanBe(mode: Mode, a: bytes) {
    match mode
    case Bare => a != [] && BareOk(a)
    case Double => true
    case Single => 0 !in a && (a != [] ==> a[|a| - 1] != BACKSLASH)
  }

  function Row(args: seq<bytes>, styles: seq<Mode>, gaps: seq<bytes>): bytes
    requires |styles| == |args| && |gaps| == |args| + 1
  {
    if args == [] then gaps[0]
    else gaps[0] + Styled(styles[0], args[0]) + Row(args[1..], styles[1..], gaps[1..])
  }

  /** Blanks around the arguments, and between any two of them. */
  predicate GapsOk(styles: seq<Mode>, gaps: seq<bytes>)
    requires |gaps| == |styles| + 1
  {
    && (forall i :: 0 <= i < |gaps| ==> AllSpace(gaps[i]))
    && (forall i :: 0 <= i < |styles| ==> SepOk(styles[i], gaps[i + 1]))
    && (forall i :: 0 < i < |styles| ==> gaps[i] != [])
  }

  /** The part that stands for a byte between double quotes. */
  function UnitOf(b: byte): Unit {
    var e := Escape(b);
    if |e| == 1 then Plain(b) else if |e| == 2 then Slash(e[1]) else Hex(e[2], e[3])
  }

  lemma UnitOfIs(b: byte, after: bytes)
    ensures var u := UnitOf(b);
      UnitText(u) == Escape(b) && UnitOk(Double, u, after) && UnitValue(Double, u) == b
  {
    HexDigitBack(b as int / 16);
    HexDigitBack(b as int % 16);
    hide HexDigit, HexDigitToInt, IsHexDigit;
  }

  lemma {:induction false} DoubleUnits(a: bytes) returns (us: seq<Unit>)
    ensures Spell(us) == Escaped(a) && Meaning(Double, us) == a && UnitsOk(Double, us, [QUOTE])
    decreases |a|
  {
    hide Escape, UnitText, UnitOk, UnitValue, UnitOf;
    if a == [] {
      us := [];
    } else {
      var more := DoubleUnits(a[1..]);
      us := [UnitOf(a[0])] + more;
      assert us[1..] == more;
      UnitOfIs(a[0], Spell(more) + [QUOTE]);
      assert Meaning(Double, us) == [a[0]] + a[1..];
    }
  }

  lemma SingleUnit(b: byte, after: bytes)
    requires b != 0 && (b == BACKSLASH ==> after != [] && after[0] != SINGLE)
    ensures var u := if b == SINGLE then Slash(b) else Plain(b);
      UnitOk(Single, u, after) && UnitValue(Single, u) == b
  {
  }

  lemma {:induction false} SingleUnits(a: bytes) returns (us: seq<Unit>)
    requires CanBe(Single, a)
    ensures Spell(us) == Slashed(a) && Meaning(Single, us) == a && UnitsOk(Single, us, [SINGLE])
    decreases |a|
  {
    hide UnitOk, UnitValue;
    if a == [] {
      us := [];
    } else {
      assert a[1..] != [] ==> a[1..][|a| - 2] == a[|a| - 1];
      var more := SingleUnits(a[1..]);
      us := [if a[0] == SINGLE then Slash(a[0]) else Plain(a[0])] + more;
      assert us[1..] == more;
      SingleUnit(a[0], Spell(more) + [SINGLE]);
      assert Meaning(Single, us) == [a[0]] + a[1..];
    }
  }

  /** An argument in one of the styles is a word whose value it is. */
  lemma StyledWord(mode: Mode, a: bytes) returns (w: Word)
    requires CanBe(mode, a)
    ensures WordOk(w) && w.mode == mode && Text(w) == Styled(mode, a) && Value(w) == a
  {
    hide Spell, UnitsOk, Escaped, Slashed;
    match mode
    case Bare =>
      w := Word(a, Bare, []);
      assert a + [] == a;
    case Double =>
      var us := DoubleUnits(a);
      w := Word([], Double, us);
      assert [] + ([QUOTE] + Escaped(a) + [QUOTE]) == Repr(a) && [] + a == a;
    case Single =>
      var us := SingleUnits(a);
      w := Word([], Single, us);
      assert [] + Styled(Single, a) == Styled(Single, a) && [] + a == a;
  }

  /** Splitting undoes writing: for every list of arguments, each in any style it can
      be written in, with blanks between them. */
  lemma {:induction false} SplitStyled(args: seq<bytes>, styles: seq<Mode>, gaps: seq<bytes>)
    requires |styles| == |args| && |gaps| == |args| + 1 && GapsOk(styles, gaps)
    requires forall i :: 0 <= i < |args| ==> CanBe(styles[i], args[i])
    ensures var line := Row(args, styles, gaps); 0 !in line && Split(line) == Some(args)
    decreases |args|
  {
    hide Split, CanBe, Styled, AllSpace;
    if args == [] {
      BlanksOnly(gaps[0]);
    } else {
      var rest := Row(args[1..], styles[1..], gaps[1..]);
      GapsTail(styles, gaps);
      SplitStyled(args[1..], styles[1..], gaps[1..]);
      var w := StyledWord(styles[0], args[0]);
      RowStart(args, styles, gaps);
      WordSplit(w, rest);
      SplitBlanks(gaps[0], Text(w) + rest);
      assert Row(args, styles, gaps) == gaps[0] + (Text(w) + rest);
      assert [args[0]] + args[1..] == args;
    }
  }

  lemma BlanksOnly(s: bytes)
    requires AllSpace(s)
    ensures 0 !in s && Split(s) == Some([])
  {
    SkipBlanksAll(s);
  }

  lemma GapsTail(styles: seq<Mode>, gaps: seq<bytes>)
    requires |gaps| == |styles| + 1 && styles != [] && GapsOk(styles, gaps)
    ensures GapsOk(styles[1..], gaps[1..])
  {
    hide AllSpace, SepOk;
    var t, g := styles[1..], gaps[1..];
    forall i | 0 <= i < |t| ensures SepOk(t[i], g[i + 1]) { assert SepOk(styles[i + 1], gaps[i + 2]); }
    forall i | 0 < i < |t| ensures g[i] != [] { assert gaps[i + 1] != []; }
  }

  lemma RowStart(args: seq<bytes>, styles: seq<Mode>, gaps: seq<bytes>)
    requires |styles| == |args| && |gaps| == |args| + 1 && GapsOk(styles, gaps) && args != []
    ensures SepOk(styles[0], Row(args[1..], styles[1..], gaps[1..]))
  {
    hide AllSpace, Styled;
    var rest, g := Row(args[1..], styles[1..], gaps[1..]), gaps[1];
    assert SepOk(styles[0], gaps[0 + 1]);
    if |args| == 1 {
      assert rest == g;
    } else {
      assert g != [] && rest[0] == g[0];
    }
  }
}
