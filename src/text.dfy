/** The Java and JavaScript string operations the core relies on. */
module Text {

  /** `s.lastIndexOf(c)`: the position of the last `c` in `s`, or -1. */
  function LastIndexOf(s: string, c: char): (i: int)
    ensures -1 <= i < |s|
    ensures 0 <= i ==> s[i] == c
    ensures forall j :: i < j < |s| ==> s[j] != c
    decreases |s|
  {
    if s == [] then -1
    else if s[|s| - 1] == c then |s| - 1
    else LastIndexOf(s[..|s| - 1], c)
  }

  lemma LastIndexOfAbsent(s: string, c: char)
    ensures LastIndexOf(s, c) == -1 <==> c !in s
  {
  }

  /** A position holding `c` with no `c` after it is the last index of `c`. */
  lemma LastIndexOfAt(s: string, c: char, i: nat)
    requires i < |s| && s[i] == c
    requires forall j :: i < j < |s| ==> s[j] != c
    ensures LastIndexOf(s, c) == i
  {
  }

  /** Java's `toLowerCase` on the ASCII letters; every other character is kept. */
  function LowerChar(c: char): char {
    if 'A' <= c <= 'Z' then (c as int + 32) as char else c
  }

  function ToLowerAscii(s: string): string {
    seq(|s|, i requires 0 <= i < |s| => LowerChar(s[i]))
  }

  /** Lowering neither creates nor removes a dot, so the last dot stays where it was. */
  lemma {:induction false} LowerKeepsLastDot(s: string)
    ensures LastIndexOf(ToLowerAscii(s), '.') == LastIndexOf(s, '.')
    decreases |s|
  {
    var l := ToLowerAscii(s);
    if s != [] {
      assert l[..|l| - 1] == ToLowerAscii(s[..|s| - 1]);
      LowerKeepsLastDot(s[..|s| - 1]);
    }
  }

  lemma LowerSuffix(s: string, i: nat)
    requires i <= |s|
    ensures ToLowerAscii(s)[i..] == ToLowerAscii(s[i..])
  {
  }

  lemma LowerIdempotent(s: string)
    ensures ToLowerAscii(ToLowerAscii(s)) == ToLowerAscii(s)
  {
  }

  /** True when `t` occurs somewhere in `s`. */
  ghost predicate Occurs(t: string, s: string) {
    exists i :: 0 <= i <= |s| && t <= s[i..]
  }

  /** Java's `s.replace(t, "")`: every occurrence of `t`, found from left to
      right without overlapping, is removed, not only a leading one. */
  function RemoveAll(s: string, t: string): (r: string)
    requires t != []
    ensures |r| <= |s|
    decreases |s|
  {
    if s == [] then []
    else if t <= s then RemoveAll(s[|t|..], t)
    else [s[0]] + RemoveAll(s[1..], t)
  }

  /** Removing a leading `t` leaves the text after it to the same scan. */
  lemma RemoveAllLeading(t: string, rest: string)
    requires t != []
    ensures RemoveAll(t + rest, t) == RemoveAll(rest, t)
  {
    assert (t + rest)[|t|..] == rest;
  }

  /** A text in which `t` never occurs comes back unchanged. */
  lemma {:induction false} RemoveAllAbsent(s: string, t: string)
    requires t != []
    requires !Occurs(t, s)
    ensures RemoveAll(s, t) == s
    decreases |s|
  {
    if s != [] {
      assert s[0..] == s;
      assert !(t <= s);
      forall i | 0 <= i <= |s[1..]|
        ensures !(t <= s[1..][i..])
      {
        assert s[1..][i..] == s[i + 1..];
      }
      RemoveAllAbsent(s[1..], t);
    }
  }

  /** The text after the last `c`, or all of `s` when `c` does not occur:
      Java's `s.substring(s.lastIndexOf(c) + 1)` and JavaScript's
      `s.split(c).pop()`. */
  function AfterLast(s: string, c: char): (e: string)
    ensures |e| <= |s| && c !in e
    ensures e == s[|s| - |e|..]
    ensures c !in s ==> e == s
    ensures c in s ==> |e| < |s| && s[|s| - |e| - 1] == c
  {
    var i := LastIndexOf(s, c);
    assert c in s ==> i >= 0;
    s[i + 1..]
  }

  /** After `stem` + `c` + `tail`, where `tail` holds no `c`, comes `tail`. */
  lemma AfterLastSeparator(stem: string, c: char, tail: string)
    requires c !in tail
    ensures AfterLast(stem + [c] + tail, c) == tail
  {
    var s := stem + [c] + tail;
    LastIndexOfAt(s, c, |stem|);
    assert s[|stem| + 1..] == tail;
  }

  /** A text shorter than `t` cannot contain it. */
  lemma ShortTextLacks(s: string, t: string)
    requires |s| < |t|
    ensures !Occurs(t, s)
  {
  }

  /** Characters at which no occurrence of `t` starts are copied through. */
  lemma {:induction false} RemoveAllKeepsHead(a: string, rest: string, t: string)
    requires t != []
    requires forall i :: 0 <= i < |a| ==> !(t <= (a + rest)[i..])
    ensures RemoveAll(a + rest, t) == a + RemoveAll(rest, t)
    decreases |a|
  {
    if a != [] {
      var s := a + rest;
      assert s[0..] == s;
      assert s[1..] == a[1..] + rest;
      forall i | 0 <= i < |a[1..]|
        ensures !(t <= (a[1..] + rest)[i..])
      {
        assert (a[1..] + rest)[i..] == s[i + 1..];
      }
      assert !(t <= s);
      assert RemoveAll(s, t) == [s[0]] + RemoveAll(s[1..], t);
      RemoveAllKeepsHead(a[1..], rest, t);
      assert [a[0]] + (a[1..] + RemoveAll(rest, t)) == a + RemoveAll(rest, t);
    } else {
      assert a + rest == rest;
    }
  }

  /** No occurrence of `t` starts inside a head whose characters all differ
      from the first character of `t`. */
  lemma HeadLacksStart(a: string, rest: string, t: string)
    requires t != []
    requires forall i :: 0 <= i < |a| ==> a[i] != t[0]
    ensures forall i :: 0 <= i < |a| ==> !(t <= (a + rest)[i..])
  {
    forall i | 0 <= i < |a|
      ensures !(t <= (a + rest)[i..])
    {
      assert (a + rest)[i..][0] == a[i];
    }
  }

  predicate IsDigit(c: char) {
    '0' <= c <= '9'
  }

  function DigitChar(d: int): char
    requires 0 <= d < 10
  {
    ('0' as int + d) as char
  }

  function NatToDecimal(n: nat): (s: string)
    ensures |s| >= 1
    ensures forall i :: 0 <= i < |s| ==> IsDigit(s[i])
    decreases n
  {
    if n < 10 then [DigitChar(n)] else NatToDecimal(n / 10) + [DigitChar(n % 10)]
  }

  /** `String.valueOf(n)` in Java, or an integer in a JavaScript template:
      the decimal form, with a minus sign when negative. */
  function DecimalString(n: int): string {
    if n < 0 then "-" + NatToDecimal(-n) else NatToDecimal(n)
  }

  /** Reads a string of decimal digits back as a number. */
  function DecimalValue(s: string): nat
    requires forall i :: 0 <= i < |s| ==> IsDigit(s[i])
    decreases |s|
  {
    if s == [] then 0
    else
      assert IsDigit(s[|s| - 1]);
      DecimalValue(s[..|s| - 1]) * 10 + (s[|s| - 1] as int - '0' as int)
  }

  /** The decimal form names the number it was made from. */
  lemma {:induction false} DecimalRoundTrip(n: nat)
    ensures DecimalValue(NatToDecimal(n)) == n
    decreases n
  {
    var s := NatToDecimal(n);
    if n >= 10 {
      DecimalRoundTrip(n / 10);
      assert s[..|s| - 1] == NatToDecimal(n / 10);
    }
  }

  /** Different numbers are written differently, so an echoed number can be
      read back. */
  lemma DecimalStringInjective(m: int, n: int)
    requires DecimalString(m) == DecimalString(n)
    ensures m == n
  {
    var s := DecimalString(m);
    var am := if m < 0 then -m else m;
    var an := if n < 0 then -n else n;
    assert IsDigit(NatToDecimal(am)[0]) && IsDigit(NatToDecimal(an)[0]);
    assert m < 0 <==> s[0] == '-';
    assert n < 0 <==> s[0] == '-';
    var digits := if s[0] == '-' then s[1..] else s;
    assert digits == NatToDecimal(am) == NatToDecimal(an);
    DecimalRoundTrip(am);
    DecimalRoundTrip(an);
  }

  lemma SixtyIsWrittenSixty()
    ensures DecimalString(60) == "60"
  {
    assert NatToDecimal(6) == "6";
  }
}
