/**
 * Python's int(text) in base 10, and the decimal rendering it inverts.
 * int() ignores surrounding whitespace, takes an optional '+' or '-' sign,
 * and accepts digits with single underscores between them ("1_000").
 * Its whitespace is not quite str.isspace(): CPython maps every non-ASCII
 * space to ' ' and then skips only the ASCII spaces, tab, LF, VT, FF and CR,
 * so the separator controls U+001C..U+001F, which strip() removes, make
 * int() fail.
 */
module IntText {
  import opened Results
  import opened Text

  predicate IsDigit(c: char) {
    '0' <= c <= '9'
  }

  function DigitValue(c: char): (v: nat)
    requires IsDigit(c)
    ensures v < 10
  {
    (c as int) - ('0' as int)
  }

  function DigitChar(v: nat): (c: char)
    requires v < 10
    ensures IsDigit(c) && DigitValue(c) == v
  {
    (('0' as int) + v) as char
  }

  /** The whitespace int() skips around a number. */
  predicate IntSpace(c: char) {
    IsSpace(c) && !(0x1C <= c as int <= 0x1F)
  }

  predicate AllIntSpace(s: string) {
    forall i :: 0 <= i < |s| ==> IntSpace(s[i])
  }

  predicate IntTrimmed(s: string) {
    s == [] || (!IntSpace(s[0]) && !IntSpace(s[|s| - 1]))
  }

  function IntTrimLeft(s: string): string {
    if s != [] && IntSpace(s[0]) then IntTrimLeft(s[1..]) else s
  }

  function IntTrimRight(s: string): string {
    if s != [] && IntSpace(s[|s| - 1]) then IntTrimRight(s[..|s| - 1]) else s
  }

  /** What int() drops from both ends before reading the number. */
  function IntStrip(s: string): string {
    IntTrimRight(IntTrimLeft(s))
  }

  lemma {:induction false} IntTrimLeftPadded(w: string, x: string)
    requires AllIntSpace(w) && (x == [] || !IntSpace(x[0]))
    ensures IntTrimLeft(w + x) == x
  {
    if w != [] {
      assert (w + x)[1..] == w[1..] + x;
      IntTrimLeftPadded(w[1..], x);
    } else {
      assert w + x == x;
    }
  }

  lemma {:induction false} IntTrimRightPadded(x: string, w: string)
    requires AllIntSpace(w) && (x == [] || !IntSpace(x[|x| - 1]))
    ensures IntTrimRight(x + w) == x
  {
    if w != [] {
      assert (x + w)[..|x + w| - 1] == x + w[..|w| - 1];
      IntTrimRightPadded(x, w[..|w| - 1]);
    } else {
      assert x + w == x;
    }
  }

  /** int()'s strip removes exactly the surrounding int() whitespace. */
  lemma IntStripPadded(w0: string, x: string, w1: string)
    requires AllIntSpace(w0) && AllIntSpace(w1) && IntTrimmed(x)
    ensures IntStrip(w0 + x + w1) == x
  {
    if x == [] {
      assert w0 + x + w1 == w0 + w1;
      assert AllIntSpace(w0 + w1);
      IntTrimLeftPadded(w0 + w1, []);
      assert w0 + w1 + [] == w0 + w1;
    } else {
      assert w0 + x + w1 == w0 + (x + w1);
      IntTrimLeftPadded(w0, x + w1);
      IntTrimRightPadded(x, w1);
    }
  }

  lemma IntStripTrimmed(x: string)
    requires IntTrimmed(x)
    ensures IntStrip(x) == x
  {
    IntStripPadded([], x, []);
    assert [] + x + [] == x;
  }

  /** int()'s strip keeps a leading character that is not int() whitespace. */
  lemma {:induction false} IntTrimRightKeepsFirst(s: string)
    requires s != [] && !IntSpace(s[0])
    ensures IntTrimRight(s) != [] && IntTrimRight(s)[0] == s[0]
  {
    if IntSpace(s[|s| - 1]) {
      IntTrimRightKeepsFirst(s[..|s| - 1]);
    }
  }

  /** The unsigned body int() accepts: digits, with single underscores only
      between two digits. */
  predicate IsDigitGroups(s: string) {
    && |s| > 0
    && IsDigit(s[0])
    && IsDigit(s[|s| - 1])
    && (forall i :: 0 <= i < |s| ==> IsDigit(s[i]) || s[i] == '_')
    && (forall i :: 0 <= i < |s| - 1 ==> s[i] == '_' ==> s[i + 1] != '_')
  }

  /** Value of a digit string read left to right; underscores are skipped. */
  function ValueOf(s: string): nat
    requires forall i :: 0 <= i < |s| ==> IsDigit(s[i]) || s[i] == '_'
  {
    if s == [] then 0
    else if s[|s| - 1] == '_' then ValueOf(s[..|s| - 1])
    else ValueOf(s[..|s| - 1]) * 10 + DigitValue(s[|s| - 1])
  }

  /** int() on text that is already stripped: an optional sign, then digit groups. */
  function ParseSigned(t: string): Option<int> {
    if |t| > 0 && (t[0] == '+' || t[0] == '-') then
      match ParseUnsigned(t[1..])
      case None => None
      case Some(v) => var n: int := v; Some(if t[0] == '-' then -n else n)
    else ParseUnsigned(t)
  }

  function ParseUnsigned(t: string): Option<nat> {
    if IsDigitGroups(t) then Some(ValueOf(t)) else None
  }

  /** int(text): None where Python raises ValueError. */
  function ParseInt(s: string): (r: Option<int>)
    ensures r.Some? && r.value < 0 ==> IntStrip(s) != [] && IntStrip(s)[0] == '-'
  {
    ParseSigned(IntStrip(s))
  }

  /** Decimal digits of a natural number, without leading zeros. */
  function RenderNat(n: nat): (s: string)
    ensures |s| > 0
    ensures forall i :: 0 <= i < |s| ==> IsDigit(s[i])
  {
    if n < 10 then [DigitChar(n)] else RenderNat(n / 10) + [DigitChar(n % 10)]
  }

  /** str(n): decimal rendering with a '-' for negative numbers. */
  function Render(n: int): (s: string)
    ensures |s| > 0 && IsDigit(s[|s| - 1])
    ensures forall i :: 0 <= i < |s| ==> IsDigit(s[i]) || (i == 0 && s[i] == '-')
  {
    if n < 0 then "-" + RenderNat(-n) else RenderNat(n)
  }

  lemma {:induction false} ValueOfRenderNat(n: nat)
    ensures ValueOf(RenderNat(n)) == n
  {
    if n >= 10 {
      var s := RenderNat(n);
      assert s[..|s| - 1] == RenderNat(n / 10);
      ValueOfRenderNat(n / 10);
    }
  }

  /** A leading zero does not change the value read. */
  lemma {:induction false} ValueOfLeadingZero(s: string)
    requires forall i :: 0 <= i < |s| ==> IsDigit(s[i])
    ensures ValueOf("0" + s) == ValueOf(s)
  {
    if s != [] {
      var z := "0" + s;
      assert z[..|z| - 1] == "0" + s[..|s| - 1];
      ValueOfLeadingZero(s[..|s| - 1]);
    }
  }

  lemma DigitsAreGroups(s: string)
    requires |s| > 0 && forall i :: 0 <= i < |s| ==> IsDigit(s[i])
    ensures IsDigitGroups(s)
  {
  }

  lemma ParseUnsignedRender(n: nat)
    ensures ParseUnsigned(RenderNat(n)) == Some(n)
  {
    DigitsAreGroups(RenderNat(n));
    ValueOfRenderNat(n);
  }

  /** Round trip: int(str(n)) == n for every integer, negative ones included. */
  lemma ParseIntRender(n: int)
    ensures ParseInt(Render(n)) == Some(n)
  {
    var s := Render(n);
    var digits := RenderNat(if n < 0 then -n else n);
    ParseUnsignedRender(if n < 0 then -n else n);
    if n < 0 {
      assert s == "-" + digits && s[1..] == digits;
      assert !IntSpace(s[0]) && s[|s| - 1] == digits[|digits| - 1];
    } else {
      assert s == digits && IsDigit(s[0]);
    }
    IntStripTrimmed(s);
  }

  /** int() also reads a rendering padded with one leading zero ("05"). */
  lemma ParseIntZeroPadded(n: nat)
    ensures ParseInt("0" + RenderNat(n)) == Some(n)
  {
    var s := "0" + RenderNat(n);
    assert forall i :: 0 <= i < |s| ==> IsDigit(s[i]);
    IntStripTrimmed(s);
    DigitsAreGroups(s);
    ValueOfLeadingZero(RenderNat(n));
    ValueOfRenderNat(n);
  }

  /** int() ignores whitespace around the number. */
  lemma ParseIntPadded(w0: string, x: string, w1: string)
    requires AllIntSpace(w0) && AllIntSpace(w1) && IntTrimmed(x)
    ensures ParseInt(w0 + x + w1) == ParseInt(x)
  {
    IntStripPadded(w0, x, w1);
    IntStripTrimmed(x);
  }

  /** int() of text holding anything but a sign, digits and underscores
      between its surrounding whitespace raises. */
  lemma ParseIntRejects(s: string, i: nat)
    requires i < |IntStrip(s)|
    requires var c := IntStrip(s)[i]; !IsDigit(c) && c != '_' && (i > 0 || (c != '+' && c != '-'))
    ensures ParseInt(s) == None
  {
    var t := IntStrip(s);
    if |t| > 0 && (t[0] == '+' || t[0] == '-') {
      assert i > 0 && t[1..][i - 1] == t[i];
    }
  }

  /** int() of empty or all-whitespace text raises. */
  lemma ParseIntBlank(s: string)
    requires AllIntSpace(s)
    ensures ParseInt(s) == None
  {
    IntStripPadded(s, [], []);
    assert s + [] + [] == s;
  }

  /** A leading separator control (U+001C..U+001F) makes int() raise, although
      strip() would have removed it. */
  lemma ParseIntControlPrefix(c: char, x: string)
    requires 0x1C <= c as int <= 0x1F
    ensures IsSpace(c) && ParseInt([c] + x) == None
  {
    var s := [c] + x;
    assert IntTrimLeft(s) == s;
    IntTrimRightKeepsFirst(s);
    ParseIntRejects(s, 0);
  }
}
