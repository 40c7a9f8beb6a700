/**
 * The few Python string operations the sheet parser relies on:
 * `str.strip()`, `str.split(":", 1)[1]` and `float(str)`.
 */
module PyText {
  import opened Wrappers

  /** `str.isspace()` for one character: the code points Python treats as whitespace. */
  predicate IsSpace(c: char)
  {
    var n := c as int;
    (0x09 <= n <= 0x0D) || (0x1C <= n <= 0x20) || n == 0x85 || n == 0xA0 ||
    n == 0x1680 || (0x2000 <= n <= 0x200A) || n == 0x2028 || n == 0x2029 ||
    n == 0x202F || n == 0x205F || n == 0x3000
  }

  /**
   * The whitespace `float()` ignores around a number. Python first turns
   * every non-ASCII whitespace character into a space and then strips only
   * the ASCII whitespace of C's `isspace`, so the separators U+001C to
   * U+001F, which `str.isspace()` accepts, are not ignored.
   */
  predicate IsFloatSpace(c: char)
  {
    IsSpace(c) && !(0x1C <= c as int <= 0x1F)
  }

  /** Every character of `s` is in the set `ws`. */
  predicate AllIn(s: string, ws: char -> bool)
  {
    forall i :: 0 <= i < |s| ==> ws(s[i])
  }

  predicate AllSpace(s: string)
  {
    AllIn(s, IsSpace)
  }

  /** `s` without its leading characters from `ws`. */
  function TrimLeft(s: string, ws: char -> bool): string
  {
    if |s| > 0 && ws(s[0]) then TrimLeft(s[1..], ws) else s
  }

  /** `s` without its trailing characters from `ws`. */
  function TrimRight(s: string, ws: char -> bool): string
  {
    if |s| > 0 && ws(s[|s| - 1]) then TrimRight(s[..|s| - 1], ws) else s
  }

  function Trim(s: string, ws: char -> bool): string
  {
    TrimRight(TrimLeft(s, ws), ws)
  }

  /** `s.strip()`: `s` without its leading and trailing whitespace. */
  function Strip(s: string): string
  {
    Trim(s, IsSpace)
  }

  /** The text `float()` parses: `s` without the whitespace `float()` ignores. */
  function FloatStrip(s: string): string
  {
    Trim(s, IsFloatSpace)
  }

  /** Trimming the left end removes a run of `ws` characters from the front and stops at the first other one. */
  lemma {:induction false} TrimLeftSpec(s: string, ws: char -> bool)
    ensures var r := TrimLeft(s, ws);
      && |r| <= |s| && r == s[|s| - |r|..] && AllIn(s[..|s| - |r|], ws)
      && (r == [] || !ws(r[0]))
  {
    if |s| > 0 && ws(s[0]) {
      TrimLeftSpec(s[1..], ws);
      var r := TrimLeft(s[1..], ws);
      assert s[..|s| - |r|] == [s[0]] + s[1..][..|s| - 1 - |r|];
    }
  }

  /** Trimming the right end removes a run of `ws` characters from the back and stops at the last other one. */
  lemma {:induction false} TrimRightSpec(s: string, ws: char -> bool)
    ensures var r := TrimRight(s, ws);
      && |r| <= |s| && r == s[..|r|] && AllIn(s[|r|..], ws)
      && (r == [] || !ws(r[|r| - 1]))
  {
    if |s| > 0 && ws(s[|s| - 1]) {
      TrimRightSpec(s[..|s| - 1], ws);
      var r := TrimRight(s[..|s| - 1], ws);
      assert s[|r|..] == s[..|s| - 1][|r|..] + [s[|s| - 1]];
    }
  }

  /** The trimmed text is a slice of the text with only `ws` characters cut away on either side. */
  lemma TrimSpec(s: string, ws: char -> bool)
    ensures var r := Trim(s, ws);
      && (exists i, j :: 0 <= i <= j <= |s| && r == s[i..j] && AllIn(s[..i], ws) && AllIn(s[j..], ws))
      && (r == [] || (!ws(r[0]) && !ws(r[|r| - 1])))
  {
    var l := TrimLeft(s, ws);
    TrimLeftSpec(s, ws);
    TrimRightSpec(l, ws);
    var r := TrimRight(l, ws);
    var i := |s| - |l|;
    assert r == s[i..i + |r|];
    assert s[i + |r|..] == l[|r|..];
    if r != [] {
      assert r[0] == l[0];
    }
  }

  /** `strip()` cuts only whitespace, from both ends, and leaves none at either end. */
  lemma StripSpec(s: string)
    ensures var r := Strip(s);
      && (exists i, j :: 0 <= i <= j <= |s| && r == s[i..j] && AllSpace(s[..i]) && AllSpace(s[j..]))
      && (r == [] || (!IsSpace(r[0]) && !IsSpace(r[|r| - 1])))
  {
    TrimSpec(s, IsSpace);
  }

  /** The text is the trimmed text with the cut-away `ws` characters on either side. */
  lemma TrimSplit(s: string, ws: char -> bool) returns (pad: string, pad': string)
    ensures AllIn(pad, ws) && AllIn(pad', ws) && s == pad + Trim(s, ws) + pad'
  {
    var l := TrimLeft(s, ws);
    TrimLeftSpec(s, ws);
    TrimRightSpec(l, ws);
    var r := TrimRight(l, ws);
    pad, pad' := s[..|s| - |l|], l[|r|..];
    assert l == r + pad';
  }

  /** Trimming twice is trimming once. */
  lemma TrimIdempotent(s: string, ws: char -> bool)
    ensures Trim(Trim(s, ws), ws) == Trim(s, ws)
  {
    var t := Trim(s, ws);
    TrimSpec(s, ws);
    assert TrimLeft(t, ws) == t;
    if t != [] {
      assert !ws(t[|t| - 1]);
    }
  }

  /** `s.startswith(prefix)`, compared character by character. */
  predicate StartsWith(s: string, prefix: string)
  {
    |prefix| == 0 || (|s| > 0 && s[0] == prefix[0] && StartsWith(s[1..], prefix[1..]))
  }

  /** `startswith` holds exactly when `prefix` is a prefix of `s`. */
  lemma {:induction false} StartsWithSpec(s: string, prefix: string)
    ensures StartsWith(s, prefix) <==> prefix <= s
    decreases |prefix|
  {
    if |prefix| > 0 && |s| > 0 {
      StartsWithSpec(s[1..], prefix[1..]);
      assert s == [s[0]] + s[1..];
      assert prefix == [prefix[0]] + prefix[1..];
    }
  }

  /** The index of the first occurrence of `c` in `s`, if any. */
  function FirstIndexOf(s: string, c: char): (r: Option<nat>)
    ensures r.Some? ==> r.value < |s|
  {
    if |s| == 0 then None
    else if s[0] == c then Some(0)
    else
      match FirstIndexOf(s[1..], c)
      case None => None
      case Some(i) => Some(i + 1)
  }

  lemma {:induction false} FirstIndexOfSpec(s: string, c: char)
    ensures var r := FirstIndexOf(s, c);
      && (r.None? <==> c !in s)
      && (r.Some? ==> r.value < |s| && s[r.value] == c && c !in s[..r.value])
  {
    if |s| > 0 && s[0] != c {
      FirstIndexOfSpec(s[1..], c);
      assert s == [s[0]] + s[1..];
      match FirstIndexOf(s[1..], c)
      case None =>
      case Some(i) =>
        assert s[..i + 1] == [s[0]] + s[1..][..i];
    }
  }

  /**
   * `s.split(":", 1)[1]`: everything after the first colon, later colons
   * included; `None` where Python raises `IndexError` (no colon at all).
   */
  function AfterFirstColon(s: string): Option<string>
  {
    match FirstIndexOf(s, ':')
    case None => None
    case Some(i) => Some(s[i + 1..])
  }

  /** The split fails exactly when there is no colon, and otherwise keeps what follows the first colon. */
  lemma AfterFirstColonSpec(s: string)
    ensures var r := AfterFirstColon(s);
      && (r.None? <==> ':' !in s)
      && (r.Some? ==> exists i :: 0 <= i < |s| && s[i] == ':' && ':' !in s[..i] && r.value == s[i + 1..])
  {
    FirstIndexOfSpec(s, ':');
  }

  /** Splitting keeps every colon after the first one: `"a: b: c"` gives `" b: c"`. */
  lemma AfterFirstColonKeepsLaterColons(head: string, tail: string)
    requires ':' !in head
    ensures AfterFirstColon(head + ":" + tail) == Some(tail)
  {
    var s := head + ":" + tail;
    assert s[|head|] == ':';
    FirstIndexOfSpec(s, ':');
    var i := FirstIndexOf(s, ':').value;
    assert s[..|head|] == head;
    assert s[|head|] == ':';
    assert i >= |head| by {
      assert s[i] == ':';
      assert forall k :: 0 <= k < |head| ==> s[k] == head[k];
    }
    assert i <= |head| by {
      assert forall k :: 0 <= k < i ==> s[..i][k] == s[k];
    }
    assert s[|head| + 1..] == tail;
  }

  predicate IsDigit(c: char)
  {
    '0' <= c <= '9'
  }

  predicate AllDigits(s: string)
  {
    forall i :: 0 <= i < |s| ==> IsDigit(s[i])
  }

  /** The value of a string of decimal digits. */
  function DigitsValue(s: string): nat
    requires AllDigits(s)
  {
    if |s| == 0 then 0 else 10 * DigitsValue(s[..|s| - 1]) + (s[|s| - 1] as int - '0' as int)
  }

  function Pow10(n: nat): (p: nat)
    ensures p >= 1
  {
    if n == 0 then 1 else 10 * Pow10(n - 1)
  }

  /** The length of the longest all-digit prefix of `s`. */
  function LeadingDigits(s: string): (k: nat)
    ensures k <= |s| && AllDigits(s[..k])
    ensures k < |s| ==> !IsDigit(s[k])
  {
    if |s| > 0 && IsDigit(s[0]) then
      var k := LeadingDigits(s[1..]);
      assert s[..k + 1] == [s[0]] + s[1..][..k];
      k + 1
    else 0
  }

  /** `digits`, `digits.`, `.digits` or `digits.digits`, with at least one digit. */
  function ParseUnsigned(t: string): (r: Option<real>)
    ensures r.Some? ==> r.value >= 0.0
  {
    var k := LeadingDigits(t);
    var whole := DigitsValue(t[..k]) as real;
    if k == |t| then
      if k > 0 then Some(whole) else None
    else if t[k] == '.' && AllDigits(t[k + 1..]) && (k > 0 || k + 1 < |t|) then
      var frac := t[k + 1..];
      Some(whole + DigitsValue(frac) as real / Pow10(|frac|) as real)
    else None
  }

  /**
   * `float(s)` on a decimal string: the whitespace `float()` ignores may
   * surround it and one leading sign is allowed.
   */
  function ParseNumber(s: string): (r: Option<real>)
    ensures r.Some? ==> |FloatStrip(s)| > 0
    ensures r.Some? && r.value < 0.0 ==> FloatStrip(s)[0] == '-'
  {
    ParseSigned(FloatStrip(s))
  }

  /** A stripped number: one optional sign, then an unsigned decimal. */
  function ParseSigned(t: string): (r: Option<real>)
  {
    if |t| > 0 && (t[0] == '-' || t[0] == '+') then
      match ParseUnsigned(t[1..])
      case None => None
      case Some(v) => Some(if t[0] == '-' then -v else v)
    else ParseUnsigned(t)
  }

  lemma {:induction false} TrimLeftSkips(pad: string, x: string, ws: char -> bool)
    requires AllIn(pad, ws)
    ensures TrimLeft(pad + x, ws) == TrimLeft(x, ws)
  {
    if pad != [] {
      var s := pad + x;
      assert s[0] == pad[0];
      assert ws(s[0]);
      assert s[1..] == pad[1..] + x;
      assert TrimLeft(s, ws) == TrimLeft(s[1..], ws);
      TrimLeftSkips(pad[1..], x, ws);
    } else {
      assert pad + x == x;
    }
  }

  lemma {:induction false} TrimRightSkips(x: string, pad: string, ws: char -> bool)
    requires AllIn(pad, ws)
    ensures TrimRight(x + pad, ws) == TrimRight(x, ws)
  {
    if pad != [] {
      assert (x + pad)[..|x + pad| - 1] == x + pad[..|pad| - 1];
      TrimRightSkips(x, pad[..|pad| - 1], ws);
    } else {
      assert x + pad == x;
    }
  }

  /** Padding from `ws` around a word with no `ws` character at its ends is exactly what trimming removes. */
  lemma TrimPadded(pad: string, w: string, pad': string, ws: char -> bool)
    requires AllIn(pad, ws) && AllIn(pad', ws)
    requires |w| > 0 && !ws(w[0]) && !ws(w[|w| - 1])
    ensures Trim(pad + w + pad', ws) == w
  {
    assert pad + w + pad' == pad + (w + pad');
    TrimLeftSkips(pad, w + pad', ws);
    assert (w + pad')[0] == w[0];
    TrimRightSkips(w, pad', ws);
  }

  /** An optional sign, as `float()` accepts one before the digits. */
  predicate IsSign(sign: string)
  {
    sign == "" || sign == "+" || sign == "-"
  }

  /** A value with its sign applied: `-` negates, `+` or no sign keeps it. */
  function Signed(sign: string, v: real): real
  {
    if sign == "-" then -v else v
  }

  /** The value of the decimal `w.f`, whole digits `w` and fraction digits `f`. */
  function DecimalValue(w: string, f: string): real
    requires AllDigits(w) && AllDigits(f)
  {
    DigitsValue(w) as real + DigitsValue(f) as real / Pow10(|f|) as real
  }

  /** The leading digits of a digit string followed by a non-digit are exactly that string. */
  lemma {:induction false} LeadingDigitsStop(w: string, rest: string)
    requires AllDigits(w) && (|rest| == 0 || !IsDigit(rest[0]))
    ensures LeadingDigits(w + rest) == |w|
    decreases |w|
  {
    if |w| > 0 {
      assert (w + rest)[0] == w[0];
      assert (w + rest)[1..] == w[1..] + rest;
      LeadingDigitsStop(w[1..], rest);
    } else {
      assert w + rest == rest;
    }
  }

  /** An unsigned decimal with a point converts to its decimal value. */
  lemma ParseUnsignedDecimal(w: string, f: string)
    requires AllDigits(w) && AllDigits(f) && |w| + |f| > 0
    ensures ParseUnsigned(w + "." + f) == Some(DecimalValue(w, f))
  {
    var t := w + "." + f;
    LeadingDigitsStop(w, "." + f);
    assert t == w + ("." + f);
    assert t[..|w|] == w && t[|w|] == '.' && t[|w| + 1..] == f;
  }

  /** An unsigned number after an optional sign converts to its signed value. */
  lemma ParseSignedOfWord(sign: string, u: string, v: real)
    requires IsSign(sign) && |u| > 0 && (IsDigit(u[0]) || u[0] == '.')
    requires ParseUnsigned(u) == Some(v)
    ensures ParseSigned(sign + u) == Some(Signed(sign, v))
  {
    var t := sign + u;
    if sign == "" {
      assert t == u && t[0] != '-' && t[0] != '+';
    } else {
      assert t[0] == sign[0] && t[1..] == u;
      assert sign == [sign[0]];
    }
  }

  /** An unsigned number with an optional sign and the whitespace `float()` ignores around it converts to its signed value. */
  lemma ParseSignedWord(pad: string, sign: string, u: string, pad': string, v: real)
    requires AllIn(pad, IsFloatSpace) && AllIn(pad', IsFloatSpace) && IsSign(sign) && |u| > 0
    requires (IsDigit(u[0]) || u[0] == '.') && (IsDigit(u[|u| - 1]) || u[|u| - 1] == '.')
    requires ParseUnsigned(u) == Some(v)
    ensures ParseNumber(pad + sign + u + pad') == Some(Signed(sign, v))
  {
    var word := sign + u;
    assert pad + sign + u + pad' == pad + word + pad';
    assert word[|word| - 1] == u[|u| - 1];
    assert word[0] == if sign == "" then u[0] else sign[0];
    TrimPadded(pad, word, pad', IsFloatSpace);
    ParseSignedOfWord(sign, u, v);
  }

  /**
   * A run of digits with an optional sign converts to the integer it
   * spells, whatever whitespace `float()` ignores surrounds it.
   */
  lemma ParseNumberOfDigits(pad: string, sign: string, d: string, pad': string)
    requires AllIn(pad, IsFloatSpace) && AllIn(pad', IsFloatSpace) && IsSign(sign) && |d| > 0 && AllDigits(d)
    ensures ParseNumber(pad + sign + d + pad') == Some(Signed(sign, DigitsValue(d) as real))
  {
    LeadingDigitsStop(d, "");
    assert d + "" == d && d[..|d|] == d;
    ParseSignedWord(pad, sign, d, pad', DigitsValue(d) as real);
  }

  /**
   * A decimal with a point and an optional sign converts to its signed
   * decimal value, whatever whitespace `float()` ignores surrounds it.
   */
  lemma ParseNumberOfDecimal(pad: string, sign: string, w: string, f: string, pad': string)
    requires AllIn(pad, IsFloatSpace) && AllIn(pad', IsFloatSpace) && IsSign(sign)
    requires AllDigits(w) && AllDigits(f) && |w| + |f| > 0
    ensures ParseNumber(pad + sign + w + "." + f + pad') == Some(Signed(sign, DecimalValue(w, f)))
  {
    var u := w + "." + f;
    ParseUnsignedDecimal(w, f);
    assert u[0] == if |w| > 0 then w[0] else '.';
    assert u[|u| - 1] == if |f| > 0 then f[|f| - 1] else '.';
    assert pad + sign + w + "." + f + pad' == pad + sign + u + pad';
    ParseSignedWord(pad, sign, u, pad', DecimalValue(w, f));
  }

  /** The text of an unsigned decimal: digits `w`, then, with a point, `.` and the digits `f`. */
  function Numeral(w: string, f: string, point: bool): string
  {
    if point then w + "." + f else w
  }

  /** Every unsigned text that converts is digits with at most one point and at least one digit. */
  lemma ParseUnsignedShape(u: string) returns (w: string, f: string, point: bool)
    requires ParseUnsigned(u).Some?
    ensures AllDigits(w) && AllDigits(f) && |w| + |f| > 0 && (!point ==> f == [])
    ensures u == Numeral(w, f, point)
    ensures ParseUnsigned(u) == Some(DecimalValue(w, f))
  {
    var k := LeadingDigits(u);
    if k == |u| {
      w, f, point := u, [], false;
      assert u[..k] == u;
    } else {
      w, f, point := u[..k], u[k + 1..], true;
      assert u == w + "." + f;
    }
  }

  /** Every stripped text that converts is an optional sign, then an unsigned decimal. */
  lemma ParseSignedShape(t: string) returns (sign: string, w: string, f: string, point: bool)
    requires ParseSigned(t).Some?
    ensures IsSign(sign) && AllDigits(w) && AllDigits(f) && |w| + |f| > 0 && (!point ==> f == [])
    ensures t == sign + Numeral(w, f, point)
    ensures ParseSigned(t) == Some(Signed(sign, DecimalValue(w, f)))
  {
    if |t| > 0 && (t[0] == '-' || t[0] == '+') {
      sign := [t[0]];
      var u := t[1..];
      assert t == sign + u;
      w, f, point := ParseUnsignedShape(u);
    } else {
      sign := "";
      w, f, point := ParseUnsignedShape(t);
      assert sign + t == t;
    }
  }

  /**
   * Every text that converts is an optional sign, then digits with at most
   * one point and at least one digit, with only the whitespace `float()`
   * ignores around it; its value is the signed decimal value. Text of any
   * other shape does not convert.
   */
  lemma ParseNumberShape(s: string) returns (pad: string, sign: string, w: string, f: string, point: bool, pad': string)
    requires ParseNumber(s).Some?
    ensures IsSign(sign) && AllDigits(w) && AllDigits(f) && |w| + |f| > 0 && (!point ==> f == [])
    ensures AllIn(pad, IsFloatSpace) && AllIn(pad', IsFloatSpace)
    ensures s == pad + sign + Numeral(w, f, point) + pad'
    ensures FloatStrip(s) == sign + Numeral(w, f, point)
    ensures ParseNumber(s) == Some(Signed(sign, DecimalValue(w, f)))
  {
    sign, w, f, point := ParseSignedShape(FloatStrip(s));
    pad, pad' := TrimSplit(s, IsFloatSpace);
  }

  /**
   * The separators U+001C to U+001F count as whitespace for `strip()` but
   * not for `float()`: padding with one makes the text fail to convert,
   * while a no-break space is ignored.
   */
  lemma SeparatorPaddingRejected()
    ensures Strip("\U{1C}5") == "5"
    ensures ParseNumber("\U{1C}5") == None
    ensures ParseNumber("\U{A0}5") == Some(5.0)
  {
    assert FloatStrip("\U{1C}5") == "\U{1C}5";
    ParseNumberOfDigits("\U{A0}", "", "5", "");
  }
}
