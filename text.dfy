/**
 * The text operations both feeds are built on: Python's notion of whitespace,
 * str.strip(), str.split(sep) with a one-character separator, and its
 * inverse, sep.join(parts).
 */
module Text {

  /** Python's str.isspace() on one character: the code points that str.strip()
      discards. */
  predicate IsSpace(c: char) {
    var n := c as int;
    (0x09 <= n <= 0x0D) || (0x1C <= n <= 0x20) || n == 0x85 || n == 0xA0 || n == 0x1680
    || (0x2000 <= n <= 0x200A) || n == 0x2028 || n == 0x2029 || n == 0x202F
    || n == 0x205F || n == 0x3000
  }

  predicate AllSpace(s: string) {
    forall i :: 0 <= i < |s| ==> IsSpace(s[i])
  }

  /** Neither starts nor ends with whitespace: what strip() leaves behind. */
  predicate Trimmed(s: string) {
    s == [] || (!IsSpace(s[0]) && !IsSpace(s[|s| - 1]))
  }

  /** str.lstrip(): drops the leading whitespace. */
  function TrimLeft(s: string): string {
    if s != [] && IsSpace(s[0]) then TrimLeft(s[1..]) else s
  }

  /** str.rstrip(): drops the trailing whitespace. */
  function TrimRight(s: string): string {
    if s != [] && IsSpace(s[|s| - 1]) then TrimRight(s[..|s| - 1]) else s
  }

  /** str.strip(): removes leading and trailing whitespace, keeps everything between. */
  function Strip(s: string): (r: string)
    ensures |r| <= |s|
  {
    TrimLeftSpec(s);
    TrimRightSpec(TrimLeft(s));
    TrimRight(TrimLeft(s))
  }

  /** lstrip() leaves a suffix that does not start with whitespace, and what
      it drops is all whitespace. */
  lemma {:induction false} TrimLeftSpec(s: string)
    ensures var r := TrimLeft(s);
            |r| <= |s| && r == s[|s| - |r|..] && AllSpace(s[..|s| - |r|])
            && (r == [] || !IsSpace(r[0]))
  {
    if s != [] && IsSpace(s[0]) {
      TrimLeftSpec(s[1..]);
      var r := TrimLeft(s);
      assert s[1..][|s| - 1 - |r|..] == s[|s| - |r|..];
      assert forall i :: 1 <= i < |s| - |r| ==> s[i] == s[1..][..|s| - 1 - |r|][i - 1];
    }
  }

  /** rstrip() leaves a prefix that does not end with whitespace, and what it
      drops is all whitespace. */
  lemma {:induction false} TrimRightSpec(s: string)
    ensures var r := TrimRight(s);
            |r| <= |s| && r == s[..|r|] && AllSpace(s[|r|..])
            && (r == [] || !IsSpace(r[|r| - 1]))
  {
    if s != [] && IsSpace(s[|s| - 1]) {
      var p := s[..|s| - 1];
      TrimRightSpec(p);
      var r := TrimRight(s);
      assert p[..|r|] == s[..|r|];
      assert forall i :: |r| <= i < |s| - 1 ==> s[i] == p[|r|..][i - |r|];
    }
  }

  /** strip() leaves no whitespace at either end. */
  lemma StripIsTrimmed(s: string)
    ensures Trimmed(Strip(s)) && |Strip(s)| <= |s|
  {
    TrimLeftSpec(s);
    TrimRightSpec(TrimLeft(s));
  }

  /** strip() only removes characters: what the text lacks, its stripped
      form lacks too. */
  lemma StripKeepsOut(s: string, c: char)
    requires c !in s
    ensures c !in Strip(s)
  {
    TrimLeftSpec(s);
    TrimRightSpec(TrimLeft(s));
    var l := TrimLeft(s);
    var r := TrimRight(l);
    assert forall i :: 0 <= i < |r| ==> r[i] == l[i] == s[|s| - |l| + i];
  }

  lemma {:induction false} TrimLeftPadded(w: string, x: string)
    requires AllSpace(w) && (x == [] || !IsSpace(x[0]))
    ensures TrimLeft(w + x) == x
  {
    if w != [] {
      assert (w + x)[1..] == w[1..] + x;
      TrimLeftPadded(w[1..], x);
    } else {
      assert w + x == x;
    }
  }

  lemma {:induction false} TrimRightPadded(x: string, w: string)
    requires AllSpace(w) && (x == [] || !IsSpace(x[|x| - 1]))
    ensures TrimRight(x + w) == x
  {
    if w != [] {
      assert (x + w)[..|x + w| - 1] == x + w[..|w| - 1];
      TrimRightPadded(x, w[..|w| - 1]);
    } else {
      assert x + w == x;
    }
  }

  /** strip() removes exactly the surrounding whitespace: a trimmed text
      padded with whitespace on both sides strips back to itself. */
  lemma StripPadded(w0: string, x: string, w1: string)
    requires AllSpace(w0) && AllSpace(w1) && Trimmed(x)
    ensures Strip(w0 + x + w1) == x
  {
    if x == [] {
      assert w0 + x + w1 == w0 + w1;
      assert AllSpace(w0 + w1);
      TrimLeftPadded(w0 + w1, []);
      assert w0 + w1 + [] == w0 + w1;
    } else {
      assert w0 + x + w1 == w0 + (x + w1);
      TrimLeftPadded(w0, x + w1);
      TrimRightPadded(x, w1);
    }
  }

  /** strip() is idempotent, and is the identity on trimmed text. */
  lemma StripTrimmed(x: string)
    requires Trimmed(x)
    ensures Strip(x) == x
  {
    StripPadded([], x, []);
    assert [] + x + [] == x;
  }

  /** lstrip() drops a run of whitespace from the front. */
  lemma LeftRun(s: string) returns (w: string)
    ensures AllSpace(w) && s == w + TrimLeft(s)
  {
    TrimLeftSpec(s);
    w := s[..|s| - |TrimLeft(s)|];
    assert s == w + s[|s| - |TrimLeft(s)|..];
  }

  /** rstrip() drops a run of whitespace from the back. */
  lemma RightRun(s: string) returns (w: string)
    ensures AllSpace(w) && s == TrimRight(s) + w
  {
    TrimRightSpec(s);
    w := s[|TrimRight(s)|..];
    assert s == s[..|TrimRight(s)|] + w;
  }

  /** Every text is its stripped form between two runs of whitespace. */
  lemma StripParts(s: string) returns (w0: string, w1: string)
    ensures AllSpace(w0) && AllSpace(w1) && Trimmed(Strip(s))
    ensures s == w0 + Strip(s) + w1
  {
    w0 := LeftRun(s);
    w1 := RightRun(TrimLeft(s));
    assert s == w0 + (Strip(s) + w1);
    StripIsTrimmed(s);
  }

  /** Trailing whitespace, such as a line terminator, makes no difference
      to strip(). */
  lemma StripTrailing(s: string, w: string)
    requires AllSpace(w)
    ensures Strip(s + w) == Strip(s)
  {
    var w0, w1 := StripParts(s);
    var x := Strip(s);
    assert s + w == w0 + x + (w1 + w);
    assert AllSpace(w1 + w);
    StripPadded(w0, x, w1 + w);
  }

  /** Number of occurrences of the separator. */
  function Count(s: string, d: char): nat {
    if s == [] then 0 else (if s[0] == d then 1 else 0) + Count(s[1..], d)
  }

  /** sep.join(parts) for a one-character separator. */
  function Join(parts: seq<string>, d: char): string
    requires |parts| > 0
  {
    if |parts| == 1 then parts[0] else parts[0] + [d] + Join(parts[1..], d)
  }

  /** A join ends with the last character of its last part. */
  lemma {:induction false} JoinLast(parts: seq<string>, d: char)
    requires |parts| > 0 && parts[|parts| - 1] != []
    ensures var j := Join(parts, d); var p := parts[|parts| - 1];
            |j| > 0 && j[|j| - 1] == p[|p| - 1]
  {
    if |parts| > 1 {
      assert parts[1..][|parts[1..]| - 1] == parts[|parts| - 1];
      JoinLast(parts[1..], d);
    }
  }

  /** str.split(sep) for a one-character separator: one more part than there
      are separators, no part holds the separator, and joining the parts with
      the separator gives back the text. */
  function Split(s: string, d: char): (parts: seq<string>)
    ensures |parts| == Count(s, d) + 1
    ensures forall k :: 0 <= k < |parts| ==> d !in parts[k]
    ensures Join(parts, d) == s
  {
    if s == [] then [[]]
    else
      var rest := Split(s[1..], d);
      if s[0] == d then
        assert [s[0]] + s[1..] == s;
        [[]] + rest
      else
        var parts := [[s[0]] + rest[0]] + rest[1..];
        assert parts[1..] == rest[1..];
        assert Join(parts, d) == [s[0]] + Join(rest, d);
        assert [s[0]] + s[1..] == s;
        parts
  }

  lemma {:induction false} SplitAbsent(a: string, d: char)
    requires d !in a
    ensures Split(a, d) == [a]
  {
    if a != [] {
      assert d !in a[1..];
      SplitAbsent(a[1..], d);
    }
  }

  lemma {:induction false} SplitAfterSeparator(a: string, d: char, rest: string)
    requires d !in a
    ensures Split(a + [d] + rest, d) == [a] + Split(rest, d)
  {
    if a == [] {
      assert a + [d] + rest == [d] + rest;
      assert ([d] + rest)[1..] == rest;
    } else {
      assert (a + [d] + rest)[1..] == a[1..] + [d] + rest;
      assert d !in a[1..];
      SplitAfterSeparator(a[1..], d, rest);
      assert [a[0]] + a[1..] == a;
    }
  }

  /** Round trip: splitting the join of separator-free parts gives the parts back. */
  lemma {:induction false} SplitJoin(parts: seq<string>, d: char)
    requires |parts| > 0
    requires forall k :: 0 <= k < |parts| ==> d !in parts[k]
    ensures Split(Join(parts, d), d) == parts
  {
    if |parts| == 1 {
      SplitAbsent(parts[0], d);
    } else {
      SplitJoin(parts[1..], d);
      SplitAfterSeparator(parts[0], d, Join(parts[1..], d));
      assert [parts[0]] + parts[1..] == parts;
    }
  }
}
