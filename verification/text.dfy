/** The pieces of Python's `str` the controller relies on: `strip()` with no
    argument, `split(sep)` on a one-character separator, and `str(n)` on an
    integer. */
module Text {

  /** Python's `str.isspace` on one character. */
  predicate IsSpace(c: char)
  {
    var n := c as int;
    || n == 0x20 || 0x09 <= n <= 0x0D || 0x1C <= n <= 0x1F || n == 0x85 || n == 0xA0
    || n == 0x1680 || 0x2000 <= n <= 0x200A || n == 0x2028 || n == 0x2029
    || n == 0x202F || n == 0x205F || n == 0x3000
  }

  /** `s.lstrip()`: drops leading whitespace, and only that. */
  function LStrip(s: string): (r: string)
    ensures |r| <= |s| && r == s[|s| - |r|..]
    ensures forall i :: 0 <= i < |s| - |r| ==> IsSpace(s[i])
    ensures r == [] || !IsSpace(r[0])
  {
    if |s| > 0 && IsSpace(s[0]) then LStrip(s[1..]) else s
  }

  /** `s.rstrip()`: drops trailing whitespace, and only that. */
  function RStrip(s: string): (r: string)
    ensures |r| <= |s| && r == s[..|r|]
    ensures forall i :: |r| <= i < |s| ==> IsSpace(s[i])
    ensures r == [] || !IsSpace(r[|r| - 1])
  {
    if |s| > 0 && IsSpace(s[|s| - 1]) then RStrip(s[..|s| - 1]) else s
  }

  /** `s.strip()`. */
  function Strip(s: string): string
  {
    RStrip(LStrip(s))
  }

  /** `s.split(c)`: the pieces between occurrences of `c`, empty ones kept. */
  function Split(s: string, c: char): (r: seq<string>)
    ensures |r| >= 1
    ensures forall i :: 0 <= i < |r| ==> c !in r[i]
  {
    if |s| == 0 then [""]
    else if s[0] == c then [""] + Split(s[1..], c)
    else
      var rest := Split(s[1..], c);
      [[s[0]] + rest[0]] + rest[1..]
  }

  /** `c.join(ps)`. */
  function Join(ps: seq<string>, c: char): string
  {
    if |ps| == 0 then ""
    else if |ps| == 1 then ps[0]
    else ps[0] + [c] + Join(ps[1..], c)
  }

  /** Joining the pieces of a split gives the string back. */
  lemma {:induction false} JoinSplit(s: string, c: char)
    ensures Join(Split(s, c), c) == s
  {
    if |s| == 0 {
    } else if s[0] == c {
      JoinSplit(s[1..], c);
      assert s == [c] + s[1..];
    } else {
      JoinSplit(s[1..], c);
      var rest := Split(s[1..], c);
      if |rest| == 1 {
        assert s == [s[0]] + s[1..];
      } else {
        assert Join(rest, c) == rest[0] + [c] + Join(rest[1..], c);
        assert s == [s[0]] + s[1..];
      }
    }
  }

  /** Splitting a join of separator-free pieces gives the pieces back. */
  lemma {:induction false} SplitJoin(ps: seq<string>, c: char)
    requires |ps| >= 1
    requires forall i :: 0 <= i < |ps| ==> c !in ps[i]
    ensures Split(Join(ps, c), c) == ps
  {
    if |ps| == 1 {
      SplitNoSeparator(ps[0], c);
    } else {
      SplitJoin(ps[1..], c);
      SplitPrefix(ps[0], Join(ps[1..], c), c);
      assert [ps[0]] + ps[1..] == ps;
    }
  }

  /** A string without the separator splits into itself. */
  lemma {:induction false} SplitNoSeparator(s: string, c: char)
    requires c !in s
    ensures Split(s, c) == [s]
  {
    if |s| > 0 {
      SplitNoSeparator(s[1..], c);
      assert [s[0]] + s[1..] == s;
    }
  }

  /** Splitting `a + [c] + b` where `a` has no separator puts `a` in front. */
  lemma {:induction false} SplitPrefix(a: string, b: string, c: char)
    requires c !in a
    ensures Split(a + [c] + b, c) == [a] + Split(b, c)
  {
    if |a| == 0 {
      assert a + [c] + b == [c] + b;
      assert ([c] + b)[1..] == b;
    } else {
      SplitPrefix(a[1..], b, c);
      assert (a + [c] + b)[1..] == a[1..] + [c] + b;
      assert [a[0]] + a[1..] == a;
    }
  }

  /** A string splits into exactly two pieces `[x, y]` iff it is `x`, the
      separator, then `y`, with no separator in either. */
  lemma SplitTwo(s: string, c: char, x: string, y: string)
    ensures Split(s, c) == [x, y] <==> (s == x + [c] + y && c !in x && c !in y)
  {
    if Split(s, c) == [x, y] {
      JoinSplit(s, c);
      assert Join([x, y], c) == x + [c] + y;
    }
    if s == x + [c] + y && c !in x && c !in y {
      SplitPrefix(x, y, c);
      SplitNoSeparator(y, c);
    }
  }

  /** A stripped string starts with no whitespace and holds only
      characters of the original. */
  lemma StripFacts(s: string)
    ensures Strip(s) == [] || !IsSpace(Strip(s)[0])
    ensures forall c :: c in Strip(s) ==> c in s
  {
    var l := LStrip(s);
    var t := RStrip(l);
    assert t == l[..|t|];
    forall c | c in t
      ensures c in s
    {
      var j :| 0 <= j < |t| && t[j] == c;
      assert l[j] == c;
      assert s[|s| - |l| + j] == c;
    }
  }

  /** Strip leaves a string alone when both its ends are not whitespace. */
  lemma StripKeeps(s: string)
    requires |s| > 0 && !IsSpace(s[0]) && !IsSpace(s[|s| - 1])
    ensures Strip(s) == s
  {
  }

  /** Trailing whitespace disappears under `rstrip`. */
  lemma {:induction false} RStripTrailing(s: string, tail: string)
    requires forall i :: 0 <= i < |tail| ==> IsSpace(tail[i])
    ensures RStrip(s + tail) == RStrip(s)
  {
    if |tail| == 0 {
      assert s + tail == s;
    } else {
      var t := tail[..|tail| - 1];
      assert (s + tail)[|s + tail| - 1] == tail[|tail| - 1];
      assert (s + tail)[..|s + tail| - 1] == s + t;
      assert RStrip(s + tail) == RStrip(s + t);
      RStripTrailing(s, t);
    }
  }

  /** Stripping `s + tail` where `s` has non-whitespace ends and `tail` is all
      whitespace gives `s`. */
  lemma StripTrailing(s: string, tail: string)
    requires |s| > 0 && !IsSpace(s[0]) && !IsSpace(s[|s| - 1])
    requires forall i :: 0 <= i < |tail| ==> IsSpace(tail[i])
    ensures Strip(s + tail) == s
  {
    assert LStrip(s + tail) == s + tail;
    RStripTrailing(s, tail);
  }

  /** A string made of whitespace only strips to the empty string. */
  lemma {:induction false} StripAllSpace(s: string)
    requires forall i :: 0 <= i < |s| ==> IsSpace(s[i])
    ensures LStrip(s) == []
  {
    if |s| > 0 {
      StripAllSpace(s[1..]);
    }
  }

  // ----- decimal rendering of integers -----

  predicate IsDigit(c: char)
  {
    '0' <= c <= '9'
  }

  function DigitChar(n: nat): (c: char)
    requires n < 10
    ensures IsDigit(c)
  {
    (48 + n) as char
  }

  function DigitValue(c: char): nat
    requires IsDigit(c)
  {
    c as nat - 48
  }

  /** Decimal digits of a natural number, most significant first. */
  function NatToString(n: nat): (r: string)
    ensures |r| >= 1
    ensures forall i :: 0 <= i < |r| ==> IsDigit(r[i])
    decreases n
  {
    if n < 10 then [DigitChar(n)] else NatToString(n / 10) + [DigitChar(n % 10)]
  }

  /** Python's `str(n)` on an int: a minus sign for negatives, then digits. */
  function IntToString(n: int): (r: string)
    ensures |r| >= 1
    ensures n < 0 <==> r[0] == '-'
  {
    if n < 0 then "-" + NatToString(-n) else NatToString(n)
  }

  /** Value of a string of decimal digits. */
  function DigitsValue(s: string): nat
    requires forall i :: 0 <= i < |s| ==> IsDigit(s[i])
  {
    if |s| == 0 then 0 else DigitsValue(s[..|s| - 1]) * 10 + DigitValue(s[|s| - 1])
  }

  /** Reading back the digits of `n` gives `n`. */
  lemma {:induction false} NatToStringRoundTrip(n: nat)
    ensures DigitsValue(NatToString(n)) == n
    decreases n
  {
    if n >= 10 {
      NatToStringRoundTrip(n / 10);
      var s := NatToString(n);
      assert s[..|s| - 1] == NatToString(n / 10);
    }
  }

  /** `str` is injective on integers. */
  lemma IntToStringInjective(a: int, b: int)
    requires IntToString(a) == IntToString(b)
    ensures a == b
  {
    if a < 0 {
      assert IntToString(a)[1..] == NatToString(-a);
      assert IntToString(b)[1..] == NatToString(-b);
      NatToStringRoundTrip(-a);
      NatToStringRoundTrip(-b);
    } else {
      NatToStringRoundTrip(a);
      NatToStringRoundTrip(b);
    }
  }
}
