/** The few pieces of Python's `str` behaviour the polls app relies on:
    `sep.join(parts)`, `s.split(sep)` with a one-character separator,
    `s.strip()`, and `str(n)` for a non-negative integer. */
module Text {

  /** Whitespace removed by `str.strip()`. Only four ASCII whitespace
      characters are listed: Python also strips '\x0b', '\x0c',
      '\x1c'-'\x1f' and non-ASCII whitespace such as '\x85' and '\xa0'.
      The strings this model strips contain none of those. */
  predicate IsSpace(c: char) {
    c == ' ' || c == '\t' || c == '\n' || c == '\r'
  }

  predicate IsDigit(c: char) {
    '0' <= c <= '9'
  }

  predicate IsDigits(s: string) {
    forall i :: 0 <= i < |s| ==> IsDigit(s[i])
  }

  /* ---------------------------------------------------------------------- */
  /* join and split                                                         */
  /* ---------------------------------------------------------------------- */

  /** `sep.join(parts)`: the parts with one separator between neighbours. */
  function Join(sep: char, parts: seq<string>): (r: string)
    ensures |parts| == 0 ==> r == ""
    ensures |parts| == 1 ==> r == parts[0]
    ensures |parts| >= 1 ==> parts[0] <= r
    ensures |parts| >= 1 ==> |r| >= |parts[0]| + |parts| - 1
    ensures |parts| >= 2 ==> r[|parts[0]|] == sep && r[|parts[0]| + 1..] == Join(sep, parts[1..])
  {
    if |parts| == 0 then ""
    else if |parts| == 1 then parts[0]
    else parts[0] + [sep] + Join(sep, parts[1..])
  }

  /** Position of the first occurrence of `c` in `s`. */
  function IndexOf(s: string, c: char): (i: nat)
    requires c in s
    ensures i < |s| && s[i] == c
    ensures c !in s[..i]
  {
    if s[0] == c then 0
    else
      var j := IndexOf(s[1..], c);
      assert s[..j + 1] == [s[0]] + s[1..][..j];
      j + 1
  }

  /** `s.split(sep)`: the maximal separator-free pieces of `s`, in order.
      As in Python, the empty string splits into one empty piece. */
  function Split(s: string, sep: char): (r: seq<string>)
    ensures |r| >= 1
    ensures forall k :: 0 <= k < |r| ==> sep !in r[k]
    ensures r[0] <= s
    ensures |r[0]| < |s| ==> s[|r[0]|] == sep
    ensures sep !in s ==> r == [s]
    decreases |s|
  {
    if sep !in s then [s]
    else
      var i := IndexOf(s, sep);
      [s[..i]] + Split(s[i + 1..], sep)
  }

  /** Joining the pieces of a split gives back the original string. */
  lemma {:induction false} JoinSplit(s: string, sep: char)
    ensures Join(sep, Split(s, sep)) == s
    decreases |s|
  {
    if sep in s {
      var i := IndexOf(s, sep);
      var head, tail := s[..i], s[i + 1..];
      assert s == head + [sep] + tail;
      SplitAt(head, sep, tail);
      JoinSplit(tail, sep);
      var pieces := [head] + Split(tail, sep);
      JoinCons(sep, pieces);
      assert pieces[1..] == Split(tail, sep);
    }
  }

  /** Splitting a join of separator-free parts gives back the parts. The
      list must be non-empty: `"".split(sep)` is `[""]`, not `[]`. */
  lemma {:induction false} SplitJoin(sep: char, parts: seq<string>)
    requires |parts| >= 1
    requires forall k :: 0 <= k < |parts| ==> sep !in parts[k]
    ensures Split(Join(sep, parts), sep) == parts
  {
    if |parts| > 1 {
      var rest := Join(sep, parts[1..]);
      JoinCons(sep, parts);
      SplitAt(parts[0], sep, rest);
      SplitJoin(sep, parts[1..]);
      assert parts == [parts[0]] + parts[1..];
    }
  }

  /** A join of two or more parts is the first part, a separator, and the
      join of the rest. */
  lemma JoinCons(sep: char, parts: seq<string>)
    requires |parts| >= 2
    ensures Join(sep, parts) == parts[0] + [sep] + Join(sep, parts[1..])
  {
  }

  /** Splitting at the first separator: a separator-free head, then the
      pieces of what follows. */
  lemma SplitAt(head: string, sep: char, tail: string)
    requires sep !in head
    ensures Split(head + [sep] + tail, sep) == [head] + Split(tail, sep)
  {
    var s := head + [sep] + tail;
    var i := |head|;
    assert s[..i] == head;
    assert s[i + 1..] == tail;
    IndexOfAt(s, sep, i);
  }

  /** The first occurrence of `c` is the position before which `c` does not
      occur. */
  lemma IndexOfAt(s: string, c: char, i: int)
    requires 0 <= i < |s| && s[i] == c && c !in s[..i]
    ensures IndexOf(s, c) == i
  {
  }

  /* ---------------------------------------------------------------------- */
  /* strip                                                                  */
  /* ---------------------------------------------------------------------- */

  /** `s.rstrip()`: drops trailing whitespace. */
  function StripTrailing(s: string): (r: string)
    ensures r <= s
    ensures |r| > 0 ==> !IsSpace(r[|r| - 1])
    ensures forall k :: |r| <= k < |s| ==> IsSpace(s[k])
  {
    if |s| > 0 && IsSpace(s[|s| - 1]) then StripTrailing(s[..|s| - 1]) else s
  }

  /** `s.lstrip()`: drops leading whitespace. */
  function StripLeading(s: string): (r: string)
    ensures |r| <= |s| && r == s[|s| - |r|..]
    ensures |r| > 0 ==> !IsSpace(r[0])
    ensures forall k :: 0 <= k < |s| - |r| ==> IsSpace(s[k])
  {
    if |s| > 0 && IsSpace(s[0]) then
      var r := StripLeading(s[1..]);
      assert s[1..][|s| - 1 - |r|..] == s[|s| - |r|..];
      assert forall k :: 1 <= k < |s| - |r| ==> s[k] == s[1..][k - 1];
      r
    else s
  }

  /** `s.strip()`: drops whitespace at both ends. */
  function Strip(s: string): (r: string)
    ensures Trimmed(r)
    ensures exists i :: CutAt(s, r, i)
  {
    var t := StripTrailing(s);
    var r := StripLeading(t);
    StripCut(s, t, r);
    assert Trimmed(r) by {
      assert |r| > 0 ==> r[|r| - 1] == t[|t| - 1];
    }
    r
  }

  /** Neither end of `s` is whitespace. */
  predicate Trimmed(s: string) {
    |s| > 0 ==> !IsSpace(s[0]) && !IsSpace(s[|s| - 1])
  }

  /** Cutting whitespace off the back of `s`, giving `t`, and then off the
      front of `t`, giving `r`, cuts only whitespace, at both ends. */
  lemma StripCut(s: string, t: string, r: string)
    requires t <= s && (forall k :: |t| <= k < |s| ==> IsSpace(s[k]))
    requires |r| <= |t| && r == t[|t| - |r|..] && (forall k :: 0 <= k < |t| - |r| ==> IsSpace(t[k]))
    ensures CutAt(s, r, |t| - |r|)
  {
    var i := |t| - |r|;
    assert r == s[i..i + |r|];
    forall k | 0 <= k < i ensures IsSpace(s[k]) {
      assert t[k] == s[k];
    }
  }

  /** `r` is `s` with `i` whitespace characters cut from the front and only
      whitespace cut from the back. */
  predicate CutAt(s: string, r: string, i: int) {
    && 0 <= i <= |s| - |r| && r == s[i..i + |r|]
    && (forall k :: 0 <= k < i ==> IsSpace(s[k]))
    && (forall k :: i + |r| <= k < |s| ==> IsSpace(s[k]))
  }

  /** A string whose first and last characters are not whitespace, followed
      by one space, strips back to itself. */
  lemma StripOneTrailingSpace(s: string)
    requires |s| > 0 && !IsSpace(s[0]) && !IsSpace(s[|s| - 1])
    ensures Strip(s + " ") == s
  {
    assert (s + " ")[..|s|] == s;
  }

  /* ---------------------------------------------------------------------- */
  /* decimal rendering                                                      */
  /* ---------------------------------------------------------------------- */

  function DigitChar(d: nat): (c: char)
    requires d < 10
    ensures IsDigit(c) && (c as int) - ('0' as int) == d
  {
    (d + '0' as int) as char
  }

  function DigitValue(c: char): (d: nat)
    requires IsDigit(c)
    ensures d < 10
  {
    (c as int) - ('0' as int)
  }

  /** `str(n)` for `n >= 0`: decimal digits, no sign, no leading zero. */
  function NatToString(n: nat): (r: string)
    ensures |r| >= 1 && IsDigits(r)
    ensures r[0] == '0' ==> n == 0 && r == "0"
  {
    if n < 10 then [DigitChar(n)]
    else NatToString(n / 10) + [DigitChar(n % 10)]
  }

  /** The value of a string of decimal digits (`int(s)`). */
  function ParseDigits(s: string): nat
    requires IsDigits(s)
  {
    if |s| == 0 then 0
    else 10 * ParseDigits(s[..|s| - 1]) + DigitValue(s[|s| - 1])
  }

  /** Rendering a number and reading it back gives the number. */
  lemma {:induction false} ParseNatToString(n: nat)
    ensures ParseDigits(NatToString(n)) == n
  {
    if n >= 10 {
      var s := NatToString(n);
      assert s[..|s| - 1] == NatToString(n / 10);
      ParseNatToString(n / 10);
    }
  }

  /** Different numbers render differently. */
  lemma NatToStringInjective(m: nat, n: nat)
    requires NatToString(m) == NatToString(n)
    ensures m == n
  {
    ParseNatToString(m);
    ParseNatToString(n);
  }
}
