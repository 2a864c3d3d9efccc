/** The parts of Python's `str` that the temperature parser uses:
    `isspace`, `strip`, `upper` and `endswith` of one character. */
module PyText {

  /** `str.isspace()` of one character: the code points CPython treats as
      whitespace. */
  predicate IsSpace(c: char) {
    var n := c as int;
    || 0x09 <= n <= 0x0D
    || 0x1C <= n <= 0x20
    || n == 0x85 || n == 0xA0 || n == 0x1680
    || 0x2000 <= n <= 0x200A
    || n == 0x2028 || n == 0x2029 || n == 0x202F || n == 0x205F || n == 0x3000
  }

  predicate AllSpace(s: string) {
    forall i :: 0 <= i < |s| ==> IsSpace(s[i])
  }

  /** `s.lstrip()`. */
  function LStrip(s: string): string {
    if |s| > 0 && IsSpace(s[0]) then LStrip(s[1..]) else s
  }

  /** `s.rstrip()`. */
  function RStrip(s: string): string {
    if |s| > 0 && IsSpace(s[|s| - 1]) then RStrip(s[..|s| - 1]) else s
  }

  /** `s.strip()`. */
  function Strip(s: string): string {
    RStrip(LStrip(s))
  }

  /** Upper-casing of one character, for the ASCII letters. */
  function UpperChar(c: char): char {
    if 'a' <= c <= 'z' then (c as int - 32) as char else c
  }

  /** Lower-casing of one character, for the ASCII letters. */
  function LowerChar(c: char): char {
    if 'A' <= c <= 'Z' then (c as int + 32) as char else c
  }

  /** `s.upper()` on ASCII letters; every other character is kept. */
  function Upper(s: string): (r: string)
    ensures |r| == |s|
  {
    if s == [] then [] else [UpperChar(s[0])] + Upper(s[1..])
  }

  /** `s.lower()` on ASCII letters; every other character is kept. */
  function Lower(s: string): (r: string)
    ensures |r| == |s|
  {
    if s == [] then [] else [LowerChar(s[0])] + Lower(s[1..])
  }

  /** `s.endswith(c)` for a one-character suffix. */
  predicate EndsWith(s: string, c: char) {
    |s| > 0 && s[|s| - 1] == c
  }

  /** `lstrip` removes exactly the leading whitespace: what it returns is a
      suffix of `s` that is empty or starts with a non-blank character, and
      everything before it is blank. */
  lemma {:induction false} LStripSpec(s: string)
    ensures |LStrip(s)| <= |s| && LStrip(s) == s[|s| - |LStrip(s)|..]
    ensures forall i :: 0 <= i < |s| - |LStrip(s)| ==> IsSpace(s[i])
    ensures LStrip(s) == [] || !IsSpace(LStrip(s)[0])
  {
    if |s| > 0 && IsSpace(s[0]) {
      LStripSpec(s[1..]);
    }
  }

  /** `rstrip` removes exactly the trailing whitespace. */
  lemma {:induction false} RStripSpec(s: string)
    ensures |RStrip(s)| <= |s| && RStrip(s) == s[..|RStrip(s)|]
    ensures forall i :: |RStrip(s)| <= i < |s| ==> IsSpace(s[i])
    ensures RStrip(s) == [] || !IsSpace(RStrip(s)[|RStrip(s)| - 1])
  {
    if |s| > 0 && IsSpace(s[|s| - 1]) {
      RStripSpec(s[..|s| - 1]);
    }
  }

  /** `strip` leaves no whitespace at either end, and is empty exactly when
      `s` is all whitespace. */
  lemma StripSpec(s: string)
    ensures Strip(s) == [] || (!IsSpace(Strip(s)[0]) && !IsSpace(Strip(s)[|Strip(s)| - 1]))
    ensures Strip(s) == [] <==> AllSpace(s)
  {
    var l := LStrip(s);
    LStripSpec(s);
    RStripSpec(l);
    if RStrip(l) != [] {
      assert RStrip(l)[0] == l[0];
    }
  }

  /** Upper-casing works character by character. */
  lemma {:induction false} UpperAt(s: string, i: nat)
    requires i < |s|
    ensures Upper(s)[i] == UpperChar(s[i])
  {
    if i > 0 {
      UpperAt(s[1..], i - 1);
    }
  }

  lemma {:induction false} UpperSnoc(a: string, c: char)
    ensures Upper(a + [c]) == Upper(a) + [UpperChar(c)]
  {
    if a != [] {
      assert (a + [c])[1..] == a[1..] + [c];
      UpperSnoc(a[1..], c);
    }
  }

  /** Lower-casing before upper-casing changes nothing. */
  lemma {:induction false} UpperLower(s: string)
    ensures Upper(Lower(s)) == Upper(s)
  {
    if s != [] {
      UpperLower(s[1..]);
    }
  }

  /** Leading whitespace never survives `lstrip`. */
  lemma {:induction false} LStripSpacePrefix(w: string, y: string)
    requires AllSpace(w)
    ensures LStrip(w + y) == LStrip(y)
  {
    if w == [] {
      assert w + y == y;
    } else {
      assert (w + y)[1..] == w[1..] + y;
      LStripSpacePrefix(w[1..], y);
    }
  }

  /** What `lstrip` does to a concatenation: once `x` has a non-blank
      character, everything after it is kept. */
  lemma {:induction false} LStripAppend(x: string, w: string)
    ensures LStrip(x + w) == if LStrip(x) == [] then LStrip(w) else LStrip(x) + w
  {
    if x == [] {
      assert x + w == w;
    } else if IsSpace(x[0]) {
      assert (x + w)[1..] == x[1..] + w;
      LStripAppend(x[1..], w);
    }
  }

  /** Trailing whitespace never survives `rstrip`. */
  lemma {:induction false} RStripSpaceSuffix(y: string, w: string)
    requires AllSpace(w)
    ensures RStrip(y + w) == RStrip(y)
  {
    if w == [] {
      assert y + w == y;
    } else {
      var w' := w[..|w| - 1];
      assert (y + w)[..|y + w| - 1] == y + w';
      RStripSpaceSuffix(y, w');
    }
  }

  /** Whitespace padding on either side does not change `strip`. */
  lemma StripPadded(w1: string, x: string, w2: string)
    requires AllSpace(w1) && AllSpace(w2)
    ensures Strip(w1 + x + w2) == Strip(x)
  {
    var m := x + w2;
    assert w1 + x + w2 == w1 + m;
    LStripSpacePrefix(w1, m);
    LStripAppend(x, w2);
    if LStrip(x) == [] {
      LStripSpacePrefix(w2, []);
      assert w2 + [] == w2;
      assert LStrip(m) == [];
    } else {
      RStripSpaceSuffix(LStrip(x), w2);
    }
  }

  /** A string that ends in a non-blank character is stripped on the left only. */
  lemma StripEndingIn(s: string, c: char)
    requires !IsSpace(c)
    ensures Strip(s + [c]) == LStrip(s) + [c]
  {
    LStripAppend(s, [c]);
  }

  lemma {:induction false} LStripLower(s: string)
    ensures LStrip(Lower(s)) == Lower(LStrip(s))
  {
    if s != [] && IsSpace(s[0]) {
      LStripLower(s[1..]);
    }
  }

  lemma {:induction false} LowerPrefix(s: string)
    requires s != []
    ensures Lower(s)[..|s| - 1] == Lower(s[..|s| - 1])
    ensures Lower(s)[|s| - 1] == LowerChar(s[|s| - 1])
  {
    if |s| > 1 {
      assert s[1..][..|s| - 2] == s[..|s| - 1][1..];
      LowerPrefix(s[1..]);
    }
  }

  lemma {:induction false} RStripLower(s: string)
    ensures RStrip(Lower(s)) == Lower(RStrip(s))
  {
    if s != [] {
      LowerPrefix(s);
      if IsSpace(s[|s| - 1]) {
        RStripLower(s[..|s| - 1]);
      }
    }
  }

  /** Lower-casing first and then stripping and upper-casing gives what
      stripping and upper-casing alone gives. */
  lemma UpperStripLower(s: string)
    ensures Upper(Strip(Lower(s))) == Upper(Strip(s))
  {
    LStripLower(s);
    RStripLower(LStrip(s));
    UpperLower(Strip(s));
  }
}
