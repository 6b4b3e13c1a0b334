/**
  Python's `int()` applied to a string, as `callback_set_epsg` uses it
  (meshview.py:60), and the decimal rendering of an int that an f-string
  such as f"{i}, {j}" produces.

  int(s) skips surrounding whitespace, accepts one optional sign and a
  run of decimal digits in which single underscores may separate digits;
  leading zeros are allowed, and at most `MaxStrDigits` digits (Python's
  default `sys.get_int_max_str_digits()` since 3.11). Everything else
  raises ValueError, modelled as None.
*/
module PyInt {
  import opened Common

  /** Python's default limit on the digits of an int-string conversion. */
  const MaxStrDigits: nat := 4300

  /**
    The characters int() skips around a numeral: the ASCII whitespace
    tab, newline, vertical tab, form feed, carriage return and space, and
    the non-ASCII characters for which `str.isspace` holds. The ASCII
    separators U+001C..U+001F satisfy `str.isspace` but int() does not
    skip them.
  */
  predicate IntSpace(c: char) {
    || ('\U{0009}' <= c <= '\U{000D}')
    || c == ' ' || c == '\U{0085}' || c == '\U{00A0}' || c == '\U{1680}'
    || ('\U{2000}' <= c <= '\U{200A}')
    || c == '\U{2028}' || c == '\U{2029}' || c == '\U{202F}' || c == '\U{205F}' || c == '\U{3000}'
  }

  predicate IsDigit(c: char) { '0' <= c <= '9' }

  function DigitOf(c: char): nat
    requires IsDigit(c)
  {
    (c as int) - ('0' as int)
  }

  function CharOf(d: nat): char
    requires d < 10
  {
    (('0' as int) + d) as char
  }

  /** Drops leading whitespace. */
  function TrimLeft(s: string): (t: string)
    ensures |t| <= |s| && t == s[|s| - |t|..]
  {
    if s != [] && IntSpace(s[0]) then TrimLeft(s[1..]) else s
  }

  /** Drops trailing whitespace. */
  function TrimRight(s: string): (t: string)
    ensures |t| <= |s| && t == s[..|t|]
  {
    if s != [] && IntSpace(s[|s| - 1]) then TrimRight(s[..|s| - 1]) else s
  }

  /** TrimLeft drops only whitespace, and what it leaves does not start with any. */
  lemma {:induction false} TrimLeftDrops(s: string)
    ensures forall k :: 0 <= k < |s| - |TrimLeft(s)| ==> IntSpace(s[k])
    ensures TrimLeft(s) == [] || !IntSpace(TrimLeft(s)[0])
    decreases |s|
  {
    if s != [] && IntSpace(s[0]) {
      TrimLeftDrops(s[1..]);
      assert forall k :: 1 <= k < |s| ==> s[k] == s[1..][k - 1];
    }
  }

  /** TrimRight drops only whitespace, and what it leaves does not end with any. */
  lemma {:induction false} TrimRightDrops(s: string)
    ensures forall k :: |TrimRight(s)| <= k < |s| ==> IntSpace(s[k])
    ensures TrimRight(s) == [] || !IntSpace(TrimRight(s)[|TrimRight(s)| - 1])
    decreases |s|
  {
    if s != [] && IntSpace(s[|s| - 1]) {
      TrimRightDrops(s[..|s| - 1]);
      assert forall k :: 0 <= k < |s| - 1 ==> s[k] == s[..|s| - 1][k];
    }
  }

  /** The whitespace skipping of int(): both ends trimmed. */
  function Strip(s: string): string {
    TrimRight(TrimLeft(s))
  }

  /**
    A digit run as int() accepts it: decimal digits, where a single
    underscore may stand between two digits. Read from the back, a run is
    a digit, or a run followed by a digit, or a run, an underscore and a
    digit.
  */
  predicate DigitRun(t: string)
    decreases |t|
  {
    && |t| > 0
    && IsDigit(t[|t| - 1])
    && (|| |t| == 1
        || (t[|t| - 2] != '_' && DigitRun(t[..|t| - 1]))
        || (t[|t| - 2] == '_' && DigitRun(t[..|t| - 2])))
  }

  /** The number a digit run denotes, underscores skipped. */
  function RunValue(t: string): nat
    requires DigitRun(t)
    decreases |t|
  {
    var d := DigitOf(t[|t| - 1]);
    if |t| == 1 then d
    else if t[|t| - 2] == '_' then RunValue(t[..|t| - 2]) * 10 + d
    else RunValue(t[..|t| - 1]) * 10 + d
  }

  /** The number of decimal digits in a string, the count int() holds against its limit. */
  function DigitCount(t: string): nat {
    if t == [] then 0 else (if IsDigit(t[0]) then 1 else 0) + DigitCount(t[1..])
  }

  /** `int(s)` for a str s: Some(value), or None where int() raises ValueError. */
  function ParseInt(s: string): Option<int> {
    ParseStripped(Strip(s))
  }

  /** int() on an already stripped string: an optional sign, then a digit run within the digit limit. */
  function ParseStripped(t: string): Option<int> {
    if t == [] then None
    else
      var neg := t[0] == '-';
      var body := if t[0] == '+' || t[0] == '-' then t[1..] else t;
      if DigitRun(body) && DigitCount(body) <= MaxStrDigits then
        var v: int := RunValue(body);
        Some(if neg then -v else v)
      else None
  }

  /** The decimal digits of a natural number, most significant first. */
  function NatToString(n: nat): (s: string)
    ensures |s| > 0 && forall k :: 0 <= k < |s| ==> IsDigit(s[k])
  {
    if n < 10 then [CharOf(n)] else NatToString(n / 10) + [CharOf(n % 10)]
  }

  /** `str(n)` / f"{n}" for an int n. */
  function IntToString(n: int): string {
    if n < 0 then "-" + NatToString(-n) else NatToString(n)
  }

  /** The number of digits `str(n)` writes for n. */
  function DigitsOf(n: int): nat {
    |NatToString(if n < 0 then -n else n)|
  }

  lemma {:induction false} NatToStringValue(n: nat)
    ensures DigitRun(NatToString(n))
    ensures RunValue(NatToString(n)) == n
    decreases n
  {
    var s := NatToString(n);
    if n >= 10 {
      var init := NatToString(n / 10);
      NatToStringValue(n / 10);
      assert s[..|s| - 1] == init;
      assert s[|s| - 2] == init[|init| - 1];
    }
  }

  /** A string of digits only has as many digits as characters. */
  lemma {:induction false} AllDigitsCount(t: string)
    requires forall k :: 0 <= k < |t| ==> IsDigit(t[k])
    ensures DigitCount(t) == |t|
    decreases |t|
  {
    if t != [] {
      assert forall k :: 0 <= k < |t| - 1 ==> t[1..][k] == t[k + 1];
      AllDigitsCount(t[1..]);
    }
  }

  /** A string that neither starts nor ends with whitespace is its own strip. */
  lemma StripEnds(t: string)
    requires t != [] && !IntSpace(t[0]) && !IntSpace(t[|t| - 1])
    ensures Strip(t) == t
  {
    assert TrimLeft(t) == t;
  }

  /** A rendered natural number has no whitespace to strip. */
  lemma NatStrip(n: nat)
    ensures Strip(NatToString(n)) == NatToString(n)
  {
    StripEnds(NatToString(n));
  }

  /** The digits of a rendered natural number within the limit read back as the number. */
  lemma NatParse(n: nat)
    requires |NatToString(n)| <= MaxStrDigits
    ensures ParseStripped(NatToString(n)) == Some(n)
  {
    NatToStringValue(n);
    AllDigitsCount(NatToString(n));
    assert IsDigit(NatToString(n)[0]);
  }

  /** A rendered negative number needs no stripping. */
  lemma NegStrip(n: nat)
    ensures Strip("-" + NatToString(n)) == "-" + NatToString(n)
  {
    var d := NatToString(n);
    var s := "-" + d;
    assert s[|s| - 1] == d[|d| - 1];
    StripEnds(s);
  }

  /** A rendered negative number within the limit parses back. */
  lemma NegParse(n: nat)
    requires |NatToString(n)| <= MaxStrDigits
    ensures ParseStripped("-" + NatToString(n)) == Some(-(n as int))
  {
    var d := NatToString(n);
    var s := "-" + d;
    NatToStringValue(n);
    AllDigitsCount(d);
    assert s[1..] == d;
  }

  lemma ParseUnpadded(s: string, n: int)
    requires Strip(s) == s && ParseStripped(s) == Some(n)
    ensures ParseInt(s) == Some(n)
  {
  }

  /** int() reads back what str() renders, for every int whose rendering is within the digit limit. */
  lemma ParseRendered(n: int)
    requires DigitsOf(n) <= MaxStrDigits
    ensures ParseInt(IntToString(n)) == Some(n)
  {
    if n < 0 {
      var m: nat := -n;
      var s := "-" + NatToString(m);
      assert IntToString(n) == s;
      NegStrip(m);
      NegParse(m);
      ParseUnpadded(s, n);
    } else {
      NatStrip(n);
      NatParse(n);
      ParseUnpadded(NatToString(n), n);
    }
  }

  /** `str(n)` starts with a minus sign exactly when n is negative. */
  lemma RenderedSign(n: int)
    ensures |IntToString(n)| > 0 && (IntToString(n)[0] == '-' <==> n < 0)
  {
    if n >= 0 {
      assert IsDigit(IntToString(n)[0]);
    }
  }

  /** Distinct ints render differently. */
  lemma RenderInjective(a: int, b: int)
    requires IntToString(a) == IntToString(b)
    ensures a == b
  {
    var s := IntToString(a);
    var da := NatToString(if a < 0 then -a else a);
    var db := NatToString(if b < 0 then -b else b);
    NatToStringValue(if a < 0 then -a else a);
    NatToStringValue(if b < 0 then -b else b);
    RenderedSign(a);
    RenderedSign(b);
    if a < 0 && b < 0 {
      assert da == s[1..] == db;
    }
  }

  /** int() ignores whitespace around its argument. */
  lemma {:induction false} ParsePadded(pre: string, s: string, post: string)
    requires forall k :: 0 <= k < |pre| ==> IntSpace(pre[k])
    requires forall k :: 0 <= k < |post| ==> IntSpace(post[k])
    ensures ParseInt(pre + s + post) == ParseInt(s)
  {
    StripPadded(pre, s, post);
  }

  lemma {:induction false} TrimLeftPadded(pre: string, s: string)
    requires forall k :: 0 <= k < |pre| ==> IntSpace(pre[k])
    ensures TrimLeft(pre + s) == TrimLeft(s)
    decreases |pre|
  {
    if pre != [] {
      assert (pre + s)[0] == pre[0];
      assert (pre + s)[1..] == pre[1..] + s;
      TrimLeftPadded(pre[1..], s);
    } else {
      assert pre + s == s;
    }
  }

  lemma {:induction false} TrimRightPadded(s: string, post: string)
    requires forall k :: 0 <= k < |post| ==> IntSpace(post[k])
    ensures TrimRight(s + post) == TrimRight(s)
    decreases |post|
  {
    if post != [] {
      assert (s + post)[|s + post| - 1] == post[|post| - 1];
      assert (s + post)[..|s + post| - 1] == s + post[..|post| - 1];
      TrimRightPadded(s, post[..|post| - 1]);
    } else {
      assert s + post == s;
    }
  }

  /** Left-trimming a string followed by whitespace keeps that whitespace unless all of it goes. */
  lemma {:induction false} TrimLeftKeepsTail(s: string, post: string)
    requires forall k :: 0 <= k < |post| ==> IntSpace(post[k])
    ensures TrimLeft(s + post) == if TrimLeft(s) == [] then [] else TrimLeft(s) + post
    decreases |s|
  {
    if s == [] {
      assert s + post == post;
      AllSpaceTrims(post);
    } else {
      assert (s + post)[0] == s[0];
      if IntSpace(s[0]) {
        assert (s + post)[1..] == s[1..] + post;
        TrimLeftKeepsTail(s[1..], post);
      }
    }
  }

  lemma {:induction false} AllSpaceTrims(t: string)
    requires forall k :: 0 <= k < |t| ==> IntSpace(t[k])
    ensures TrimLeft(t) == []
    decreases |t|
  {
    if t != [] {
      assert IntSpace(t[0]);
      AllSpaceTrims(t[1..]);
    }
  }

  lemma StripPadded(pre: string, s: string, post: string)
    requires forall k :: 0 <= k < |pre| ==> IntSpace(pre[k])
    requires forall k :: 0 <= k < |post| ==> IntSpace(post[k])
    ensures Strip(pre + s + post) == Strip(s)
  {
    assert pre + s + post == pre + (s + post);
    TrimLeftPadded(pre, s + post);
    TrimLeftKeepsTail(s, post);
    if TrimLeft(s) != [] {
      TrimRightPadded(TrimLeft(s), post);
    }
  }

  /**
    The shape of a numeral int() accepts once the whitespace is gone: an
    optional leading sign, then digits and underscores ending in a digit,
    each underscore standing between two digits, and no more than
    `MaxStrDigits` digits.
  */
  predicate Numeral(t: string) {
    && |t| > 0
    && IsDigit(t[|t| - 1])
    && (forall k :: 0 <= k < |t| ==> IsDigit(t[k]) || t[k] == '_' || (k == 0 && (t[k] == '+' || t[k] == '-')))
    && (forall k :: 0 <= k < |t| && t[k] == '_' ==> 0 < k < |t| - 1 && IsDigit(t[k - 1]) && IsDigit(t[k + 1]))
    && DigitCount(t) <= MaxStrDigits
  }

  /** A digit run starts with a digit, holds digits and underscores, and each underscore stands between two digits. */
  lemma {:induction false} DigitRunShape(t: string)
    requires DigitRun(t)
    ensures IsDigit(t[0])
    ensures forall k :: 0 <= k < |t| ==> IsDigit(t[k]) || t[k] == '_'
    ensures forall k :: 0 <= k < |t| && t[k] == '_' ==> 0 < k < |t| - 1 && IsDigit(t[k - 1]) && IsDigit(t[k + 1])
    decreases |t|
  {
    if |t| > 1 {
      var cut := if t[|t| - 2] == '_' then |t| - 2 else |t| - 1;
      var u := t[..cut];
      DigitRunShape(u);
      assert forall k :: 0 <= k < cut ==> t[k] == u[k];
    }
  }

  /** Conversely, digits and underscores ending in a digit, each underscore between two digits, form a digit run. */
  lemma {:induction false} ShapeDigitRun(t: string)
    requires |t| > 0 && IsDigit(t[|t| - 1])
    requires forall k :: 0 <= k < |t| ==> IsDigit(t[k]) || t[k] == '_'
    requires forall k :: 0 <= k < |t| && t[k] == '_' ==> 0 < k < |t| - 1 && IsDigit(t[k - 1]) && IsDigit(t[k + 1])
    ensures DigitRun(t)
    decreases |t|
  {
    if |t| > 1 {
      var cut := if t[|t| - 2] == '_' then |t| - 2 else |t| - 1;
      var u := t[..cut];
      assert forall k :: 0 <= k < cut ==> u[k] == t[k];
      assert IsDigit(u[|u| - 1]);
      ShapeDigitRun(u);
    }
  }

  /** The body after a sign and the whole numeral agree, shifted by one. */
  lemma SignedBody(t: string)
    requires |t| > 0 && (t[0] == '+' || t[0] == '-')
    ensures DigitCount(t) == DigitCount(t[1..])
    ensures forall k :: 1 <= k < |t| ==> t[k] == t[1..][k - 1]
  {
  }

  /** An accepted string is a numeral once stripped. */
  lemma AcceptedIsNumeral(t: string)
    requires ParseStripped(t).Some?
    ensures Numeral(t)
  {
    if t[0] == '+' || t[0] == '-' {
      SignedBody(t);
      DigitRunShape(t[1..]);
    } else {
      DigitRunShape(t);
    }
  }

  /** A numeral is accepted. */
  lemma NumeralAccepted(t: string)
    requires Numeral(t)
    ensures ParseStripped(t).Some?
  {
    if t[0] == '+' || t[0] == '-' {
      SignedBody(t);
      var body := t[1..];
      assert forall k :: 0 <= k < |body| ==> body[k] == t[k + 1];
      ShapeDigitRun(body);
    } else {
      ShapeDigitRun(t);
    }
  }

  /**
    What int() accepts: the text, once its surrounding whitespace is
    skipped, is a numeral, and every numeral is accepted. So "4326.0",
    "EPSG:4326", "1__2", "_1", "" and "  " all raise ValueError.
  */
  lemma ParseAccepted(s: string)
    ensures ParseInt(s).Some? <==> Numeral(Strip(s))
  {
    if ParseInt(s).Some? {
      AcceptedIsNumeral(Strip(s));
    }
    if Numeral(Strip(s)) {
      NumeralAccepted(Strip(s));
    }
  }
}
