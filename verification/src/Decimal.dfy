/** Decimal numbers as bytes: util.c:189-274 (ll2string, string2ll) and the part
    of strtol and strtoll that the callers rely on. */
module Decimal {
  import opened Common

  const LLONG_MIN: int := -0x8000_0000_0000_0000
  const LLONG_MAX: int := 0x7fff_ffff_ffff_ffff
  const ULLONG_MAX: int := 0xffff_ffff_ffff_ffff

  const MINUS: byte := 45
  const PLUS: byte := 43

  predicate IsDigit(b: byte) { 48 <= b <= 57 }

  /** The decimal digits of `n`, without leading zeros. */
  function Digits(n: nat): (r: bytes)
    ensures |r| > 0 && forall i :: 0 <= i < |r| ==> IsDigit(r[i])
  {
    if n < 10 then [48 + n] else Digits(n / 10) + [48 + n % 10]
  }

  /** The text of an integer. */
  function Print(v: int): (r: bytes)
    ensures |r| > 0
  {
    if v < 0 then [MINUS] + Digits(-v) else Digits(v)
  }

  /** The value of a string of digits. */
  function Value(s: bytes): nat
    requires forall i :: 0 <= i < |s| ==> IsDigit(s[i])
  {
    if s == [] then 0
    else
      var last := s[|s| - 1];
      assert IsDigit(last);
      Value(s[..|s| - 1]) * 10 + (last - 48)
  }

  lemma {:induction false} ValueOfDigits(n: nat)
    ensures Value(Digits(n)) == n
  {
    if n >= 10 {
      var d := Digits(n);
      assert d[..|d| - 1] == Digits(n / 10) && d[|d| - 1] == 48 + n % 10;
      ValueOfDigits(n / 10);
    } else {
      assert Digits(n)[..0] == [];
    }
  }

  /** The digits of a number other than zero do not start with a zero. */
  lemma {:induction false} DigitsLead(n: nat)
    requires n > 0
    ensures Digits(n)[0] != 48
  {
    if n >= 10 { DigitsLead(n / 10); }
  }

  /** A digit string without a leading zero is the text of its value. */
  lemma {:induction false} DigitsOfValue(s: bytes)
    requires |s| > 0 && forall i :: 0 <= i < |s| ==> IsDigit(s[i])
    requires s[0] != 48 || |s| == 1
    ensures Digits(Value(s)) == s
    ensures |s| > 1 ==> Value(s) >= 10
  {
    var init, last: nat := s[..|s| - 1], s[|s| - 1] - 48;
    if |s| == 1 {
      assert init == [];
      assert s == [48 + last];
    } else {
      DigitsOfValue(init);
      assert Value(init) >= 1 by {
        if |init| == 1 { assert init[..0] == []; }
      }
      assert Value(s) / 10 == Value(init) && Value(s) % 10 == last;
      assert s == init + [s[|s| - 1]];
    }
  }

  function Pow10(k: nat): nat {
    if k == 0 then 1 else 10 * Pow10(k - 1)
  }

  /** A number below 10^k has at most k digits. */
  lemma {:induction false} DigitsShort(n: nat, k: nat)
    requires n < Pow10(k) && k > 0
    ensures |Digits(n)| <= k
  {
    if n >= 10 { DigitsShort(n / 10, k - 1); }
  }

  lemma PrintInjective(v: int, w: int)
    requires Print(v) == Print(w)
    ensures v == w
  {
    ValueOfDigits(if v < 0 then -v else v);
    ValueOfDigits(if w < 0 then -w else w);
    if v < 0 { assert Print(v)[0] == MINUS && Print(v)[1..] == Digits(-v); }
    if w < 0 { assert Print(w)[0] == MINUS && Print(w)[1..] == Digits(-w); }
  }

  /** ll2string into a buffer that is large enough: every caller passes at least 31 bytes. */
  method Ll2String(value: int) returns (s: bytes)
    ensures s == Print(value)
  {
    var v: nat := if value < 0 then -value else value;
    ghost var n := v;
    s := [48 + v % 10];
    v := v / 10;
    while v > 0
      invariant Digits(n) == (if v == 0 then [] else Digits(v)) + s
    {
      s := [48 + v % 10] + s;
      v := v / 10;
    }
    if value < 0 {
      s := [MINUS] + s;
    }
  }

  ghost predicate IsLongLong(v: int) { LLONG_MIN <= v <= LLONG_MAX }

  /** The number `s` is the canonical text of, if it is a long long. */
  ghost function Canonical(s: bytes): (r: Option<int>)
    ensures r.Some? ==> IsLongLong(r.value) && Print(r.value) == s
    ensures r == None ==> forall v :: IsLongLong(v) ==> Print(v) != s
  {
    if v :| IsLongLong(v) && Print(v) == s then Some(v) else None
  }

  lemma CanonicalPrint(v: int)
    requires IsLongLong(v)
    ensures Canonical(Print(v)) == Some(v)
  {
    var r := Canonical(Print(v));
    if r.Some? { PrintInjective(r.value, v); }
  }

  predicate AllDigits(s: bytes) {
    forall i :: 0 <= i < |s| ==> IsDigit(s[i])
  }

  /** What a text that is canonical looks like. */
  lemma CanonicalShape(s: bytes, v: int)
    requires Print(v) == s
    ensures var d := if v < 0 then s[1..] else s;
            && |s| > 0 && (v < 0 <==> s[0] == MINUS) && d != [] && AllDigits(d)
            && (d[0] != 48 || s == [48]) && Value(d) == (if v < 0 then -v else v)
  {
    var n := if v < 0 then -v else v;
    ValueOfDigits(n);
    if n > 0 { DigitsLead(n); }
  }

  /** Further digits make a number at least ten times larger. */
  lemma {:induction false} ValueGrows(s: bytes, k: nat)
    requires AllDigits(s) && k <= |s|
    ensures Value(s) >= Value(s[..k])
    ensures k < |s| ==> Value(s) >= Value(s[..k]) * 10 + (s[k] as int - 48)
    decreases |s| - k
  {
    if k == |s| {
      assert s[..k] == s;
    } else {
      ValueGrows(s, k + 1);
      assert s[..k + 1][..k] == s[..k];
    }
  }

  /** string2ll: succeeds exactly on the canonical text of a long long. */
  method String2ll(s: bytes) returns (r: Option<int>)
    ensures r == Canonical(s)
  {
    if |s| == 0 {
      return None;
    }
    if |s| == 1 && s[0] == 48 {
      CanonicalPrint(0);
      return Some(0);
    }
    var p, negative := 0, s[0] == MINUS;
    if negative {
      p := 1;
    }
    r := ReadDigits(s, p);
  }

  /** What a text stands for, by its digits behind the sign. */
  lemma CanonicalByDigits(s: bytes, start: nat)
    requires |s| > 0 && s != [48] && start == if s[0] == MINUS then 1 else 0
    ensures var d := s[start..];
      if d == [] || !(49 <= d[0] <= 57) || !AllDigits(d) then Canonical(s) == None
      else
        var v := if start == 1 then -(Value(d) as int) else Value(d);
        Canonical(s) == if IsLongLong(v) then Some(v) else None
  {
    var can, d := Canonical(s), s[start..];
    if can.Some? { CanonicalShape(s, can.value); }
    hide Value, Print, Canonical;
    if d != [] && 49 <= d[0] <= 57 && AllDigits(d) {
      NumberText(d);
      if start == 1 { assert s == [MINUS] + d; } else { assert s == d; }
      var v: int := if start == 1 then -(Value(d) as int) else Value(d);
      if IsLongLong(v) { CanonicalPrint(v); }
    }
  }

  /** string2ll after the sign. */
  method ReadDigits(s: bytes, start: nat) returns (r: Option<int>)
    requires |s| > 0 && s != [48] && start == if s[0] == MINUS then 1 else 0
    ensures r == Canonical(s)
  {
    hide Value, AllDigits, Canonical;
    CanonicalByDigits(s, start);
    var d := s[start..];
    if |d| == 0 || !(49 <= d[0] <= 57) {
      return None;
    }
    var k, v := ScanDigits(d);
    if k < |d| {
      return None;
    }
    if start == 1 {
      if v > -(LLONG_MIN + 1) + 1 {
        return None;
      }
      return Some(-v);
    }
    if v > LLONG_MAX {
      return None;
    }
    return Some(v);
  }

  lemma {:induction false} NumberText(d: bytes)
    requires d != [] && AllDigits(d) && d[0] != 48
    ensures Print(Value(d)) == d && Value(d) > 0 && Print(-(Value(d) as int)) == [MINUS] + d
  {
    DigitsOfValue(d);
    if |d| == 1 { assert d[..0] == []; }
  }

  /** The digits at the start of `d` and their value; `k` stays short of the end
      when something else follows or when the value leaves 64 bits. */
  method ScanDigits(d: bytes) returns (k: nat, v: int)
    requires d != [] && IsDigit(d[0])
    ensures k <= |d| && (k == |d| ==> AllDigits(d) && v == Value(d))
    ensures k < |d| ==> !AllDigits(d) || Value(d) > ULLONG_MAX
  {
    k, v := 1, d[0] as int - 48;
    assert d[..1] == [d[0]] && d[..1][..0] == [];
    while k < |d| && IsDigit(d[k])
      invariant 0 < k <= |d| && AllDigits(d[..k])
      invariant v == Value(d[..k]) && v <= ULLONG_MAX
    {
      assert d[..k + 1][..k] == d[..k];
      if AllDigits(d) { ValueGrows(d, k); }
      if v > ULLONG_MAX / 10 {
        return;
      }
      v := v * 10;
      if v > ULLONG_MAX - (d[k] as int - 48) {
        return;
      }
      v := v + (d[k] as int - 48);
      k := k + 1;
    }
    assert k == |d| ==> d[..k] == d;
  }

  // ---- atoi, strtol and strtoll -------------------------------------------

  function SkipBlanks(s: bytes): bytes {
    if s != [] && (s[0] == 32 || 9 <= s[0] <= 13) then SkipBlanks(s[1..]) else s
  }

  /** The digits at the start of a text. */
  function DigitPrefix(s: bytes): (d: bytes)
    ensures |d| <= |s| && AllDigits(d)
  {
    if s != [] && IsDigit(s[0]) then [s[0]] + DigitPrefix(s[1..]) else []
  }

  /** atoi, strtol and strtoll on a text whose number fits their type. */
  function Atol(s: bytes): int {
    var t := SkipBlanks(s);
    if t == [] then 0
    else if t[0] == MINUS then -(Value(DigitPrefix(t[1..])) as int)
    else if t[0] == PLUS then Value(DigitPrefix(t[1..]))
    else Value(DigitPrefix(t))
  }

  lemma {:induction false} DigitPrefixOf(d: bytes, rest: bytes)
    requires AllDigits(d) && (rest == [] || !IsDigit(rest[0]))
    ensures DigitPrefix(d + rest) == d
  {
    if d == [] {
      assert d + rest == rest;
    } else {
      assert IsDigit(d[0]) && (d + rest)[1..] == d[1..] + rest;
      DigitPrefixOf(d[1..], rest);
    }
  }

  /** The text of a number is read back as the number. */
  lemma AtolPrint(v: int)
    ensures Atol(Print(v)) == v
  {
    var n := if v < 0 then -v else v;
    var d := Digits(n);
    assert IsDigit(d[0]);
    DigitPrefixOf(d, []);
    assert d + [] == d;
    ValueOfDigits(n);
    if v < 0 {
      assert Print(v)[1..] == d;
    }
  }

  /** A C string ends at its first NUL. */
  function CString(s: bytes): (r: bytes)
    ensures r <= s && forall i :: 0 <= i < |r| ==> r[i] != 0
  {
    if s == [] || s[0] == 0 then [] else [s[0]] + CString(s[1..])
  }

  /** strtoll: the number, held within 64 bits, and what it leaves unread. */
  function Strtoll(s: bytes): (r: (int, bytes))
    ensures IsLongLong(r.0)
  {
    var t := SkipBlanks(s);
    var signed := t != [] && (t[0] == MINUS || t[0] == PLUS);
    var u := if signed then t[1..] else t;
    var d := DigitPrefix(u);
    if d == [] then (0, s)
    else
      var v := if signed && t[0] == MINUS then -(Value(d) as int) else Value(d);
      (if v < LLONG_MIN then LLONG_MIN else if v > LLONG_MAX then LLONG_MAX else v, u[|d|..])
  }

  lemma {:induction false} StrtollDigits(d: bytes)
    requires d != [] && AllDigits(d) && Value(d) <= LLONG_MAX + 1
    ensures Value(d) <= LLONG_MAX ==> Strtoll(d) == (Value(d), [])
    ensures Strtoll([MINUS] + d) == (-(Value(d) as int), [])
  {
    hide Value;
    assert IsDigit(d[0]);
    assert d + [] == d && d[|d|..] == [];
    DigitPrefixOf(d, []);
    hide DigitPrefix;
    assert SkipBlanks(d) == d;
    var m := [MINUS] + d;
    assert SkipBlanks(m) == m && m[1..] == d;
  }

  /** The text of a long long is read in full. */
  lemma StrtollPrint(v: int)
    requires IsLongLong(v)
    ensures CString(Print(v)) == Print(v) && Strtoll(Print(v)) == (v, [])
  {
    hide Digits, Value, Strtoll;
    var n := if v < 0 then -v else v;
    ValueOfDigits(n);
    StrtollDigits(Digits(n));
    NoNul(Print(v));
  }

  lemma {:induction false} NoNul(s: bytes)
    requires forall i :: 0 <= i < |s| ==> s[i] != 0
    ensures CString(s) == s
  {
    if s != [] {
      NoNul(s[1..]);
      assert s == [s[0]] + s[1..];
    }
  }
}
