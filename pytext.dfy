/**
 * The pieces of Python's text and integer semantics the level converter relies on:
 * str.split with a one-character separator, int() on a decimal string, and the
 * floor modulo behind divmod and `&` on negative numbers.
 */
module PyText {
  import opened Results

  /** str.isspace: the characters int() strips from both ends of its argument. */
  predicate IsSpace(c: char)
  {
    var n := c as int;
    || n == 0x20 || (0x09 <= n <= 0x0D) || (0x1C <= n <= 0x1F) || n == 0x85 || n == 0xA0
    || n == 0x1680 || (0x2000 <= n <= 0x200A) || n == 0x2028 || n == 0x2029 || n == 0x202F
    || n == 0x205F || n == 0x3000
  }

  /** An ASCII decimal digit. */
  predicate IsDigit(c: char)
  {
    '0' <= c <= '9'
  }

  /** str.split(sep): the pieces between separators, an empty piece wherever two meet. */
  function Split(s: string, sep: char): (r: seq<string>)
    ensures |r| >= 1
    ensures forall k :: 0 <= k < |r| ==> sep !in r[k]
  {
    if s == [] then [[]]
    else
      var rest := Split(s[1..], sep);
      if s[0] == sep then [[]] + rest else [[s[0]] + rest[0]] + rest[1..]
  }

  /** sep.join(parts): the inverse of Split. */
  function Join(parts: seq<string>, sep: char): string
    requires |parts| >= 1
    decreases |parts|
  {
    if |parts| == 1 then parts[0] else parts[0] + [sep] + Join(parts[1..], sep)
  }

  /** Splitting and joining again gives the string back. */
  lemma {:induction false} JoinSplit(s: string, sep: char)
    ensures Join(Split(s, sep), sep) == s
  {
    if s != [] {
      JoinSplit(s[1..], sep);
      var rest := Split(s[1..], sep);
      if s[0] != sep && |rest| > 1 {
        assert rest == [rest[0]] + rest[1..];
        assert Join(rest, sep) == rest[0] + [sep] + Join(rest[1..], sep);
      }
    }
  }

  /** Joining pieces that hold no separator and splitting again gives the pieces back. */
  lemma {:induction false} SplitJoin(parts: seq<string>, sep: char)
    requires |parts| >= 1 && forall k :: 0 <= k < |parts| ==> sep !in parts[k]
    ensures Split(Join(parts, sep), sep) == parts
    decreases |parts|
  {
    if |parts| == 1 {
      SplitPlain(parts[0], sep, []);
      assert parts == [parts[0]];
    } else {
      SplitJoin(parts[1..], sep);
      SplitPlain(parts[0], sep, [sep] + Join(parts[1..], sep));
      assert parts[0] + [sep] + Join(parts[1..], sep) == parts[0] + ([sep] + Join(parts[1..], sep));
      var t := Split([sep] + Join(parts[1..], sep), sep);
      assert t == [[]] + parts[1..];
      assert parts[0] + t[0] == parts[0] && t[1..] == parts[1..];
      assert parts == [parts[0]] + parts[1..];
    }
  }

  /**
   * A piece without separators in front of a tail that is empty or starts with one
   * becomes the first piece, glued to nothing.
   */
  lemma {:induction false} SplitPlain(a: string, sep: char, tail: string)
    requires sep !in a && (tail == [] || tail[0] == sep)
    ensures Split(a + tail, sep) == [a + Split(tail, sep)[0]] + Split(tail, sep)[1..]
    ensures tail == [] ==> Split(a, sep) == [a]
    decreases |a|
  {
    var t := Split(tail, sep);
    if a == [] {
      assert a + tail == tail;
      assert t == [t[0]] + t[1..];
      assert a + t[0] == t[0];
    } else {
      assert (a + tail)[1..] == a[1..] + tail;
      assert (a + tail)[0] == a[0];
      SplitPlain(a[1..], sep, tail);
      assert [a[0]] + (a[1..] + t[0]) == a + t[0];
    }
    if tail == [] {
      assert a + tail == a;
      assert Split(tail, sep) == [[]];
      assert a + Split(tail, sep)[0] == a;
    }
  }

  /** str.lstrip() of whitespace. */
  function StripLeft(s: string): (r: string)
    ensures |r| <= |s| && (r != [] ==> !IsSpace(r[0]))
    ensures forall k :: 0 <= k < |s| - |r| ==> IsSpace(s[k])
    ensures r == s[|s| - |r|..]
  {
    if s != [] && IsSpace(s[0]) then StripLeft(s[1..]) else s
  }

  /** str.rstrip() of whitespace. */
  function StripRight(s: string): (r: string)
    ensures |r| <= |s| && (r != [] ==> !IsSpace(r[|r| - 1]))
    ensures forall k :: |r| <= k < |s| ==> IsSpace(s[k])
    ensures r == s[..|r|]
  {
    if s != [] && IsSpace(s[|s| - 1]) then StripRight(s[..|s| - 1]) else s
  }

  /**
   * The digits int() accepts after the sign: ASCII digits, starting with one, with
   * single underscores allowed between two digits.
   */
  predicate DigitRun(t: string)
  {
    && |t| >= 1 && IsDigit(t[0]) && IsDigit(t[|t| - 1])
    && (forall k :: 0 <= k < |t| ==> IsDigit(t[k]) || t[k] == '_')
    && (forall k :: 0 <= k < |t| - 1 && t[k] == '_' ==> t[k + 1] != '_')
  }

  function DigitValue(c: char): nat
    requires IsDigit(c)
  {
    c as int - '0' as int
  }

  /** The number a run of digits and underscores spells, underscores ignored. */
  function DigitsValue(t: string): nat
    requires forall k :: 0 <= k < |t| ==> IsDigit(t[k]) || t[k] == '_'
  {
    if t == [] then 0
    else if t[|t| - 1] == '_' then DigitsValue(t[..|t| - 1])
    else 10 * DigitsValue(t[..|t| - 1]) + DigitValue(t[|t| - 1])
  }

  /** str.strip(): whitespace removed from both ends. */
  function Strip(s: string): string
  {
    StripRight(StripLeft(s))
  }

  /**
   * int(s) for a str argument with ASCII digits; None where int() raises
   * ValueError. Python's int() also takes the other Unicode decimal digits,
   * which this function rejects.
   */
  function ParseInt(s: string): Option<int>
  {
    ParseBare(Strip(s))
  }

  /** int() of text with nothing to strip: an optional sign, then a run of digits. */
  function ParseBare(t: string): Option<int>
  {
    if |t| >= 1 && (t[0] == '-' || t[0] == '+') then
      var v: int := if DigitRun(t[1..]) then DigitsValue(t[1..]) else 0;
      if DigitRun(t[1..]) then Some(if t[0] == '-' then -v else v)
      else None
    else if DigitRun(t) then Some(DigitsValue(t))
    else None
  }

  /** str(n) for a natural number. */
  function NatText(n: nat): (r: string)
    ensures |r| >= 1 && forall k :: 0 <= k < |r| ==> IsDigit(r[k])
  {
    var c := ['0' + (n % 10) as char];
    if n < 10 then c else NatText(n / 10) + c
  }

  /** str(n). */
  function IntText(n: int): string
  {
    if n < 0 then "-" + NatText(-n) else NatText(n)
  }

  lemma {:induction false} NatTextValue(n: nat)
    ensures DigitsValue(NatText(n)) == n
  {
    var r := NatText(n);
    assert r[..|r| - 1] == if n < 10 then [] else NatText(n / 10);
    if n >= 10 {
      NatTextValue(n / 10);
    }
  }

  /** int(str(n)) == n. */
  lemma {:induction false} IntTextRoundTrip(n: int)
    ensures ParseInt(IntText(n)) == Some(n)
  {
    var m := if n < 0 then -n else n;
    var d := NatText(m);
    NatTextValue(m);
    assert DigitRun(d);
    var t := IntText(n);
    NotSpace(t[0]);
    NotSpace(t[|t| - 1]);
    NoSpaceAround(t);
    assert ParseInt(t) == ParseBare(t);
    if n < 0 {
      assert t[1..] == d;
    } else {
      assert t == d;
    }
  }

  lemma NotSpace(c: char)
    requires IsDigit(c) || c == '-'
    ensures !IsSpace(c)
  {
  }

  /** Text that starts and ends with a non-space strips to itself. */
  lemma NoSpaceAround(t: string)
    requires t != [] && !IsSpace(t[0]) && !IsSpace(t[|t| - 1])
    ensures Strip(t) == t
  {
  }

  /** int() ignores whitespace around the number, so the newline that ends a line does no harm. */
  lemma {:induction false} ParseIntPadded(pre: string, t: string, post: string)
    requires forall k :: 0 <= k < |pre| ==> IsSpace(pre[k])
    requires forall k :: 0 <= k < |post| ==> IsSpace(post[k])
    requires t != [] && !IsSpace(t[0]) && !IsSpace(t[|t| - 1])
    ensures ParseInt(pre + t + post) == ParseInt(t)
  {
    StripLeftSkips(pre, t + post);
    assert pre + t + post == pre + (t + post);
    StripRightSkips(t, post);
    assert Strip(pre + t + post) == t;
    NoSpaceAround(t);
  }

  lemma {:induction false} StripLeftSkips(pre: string, s: string)
    requires forall k :: 0 <= k < |pre| ==> IsSpace(pre[k])
    requires s != [] && !IsSpace(s[0])
    ensures StripLeft(pre + s) == s
    decreases |pre|
  {
    if pre != [] {
      assert (pre + s)[1..] == pre[1..] + s;
      StripLeftSkips(pre[1..], s);
    } else {
      assert pre + s == s;
    }
  }

  lemma {:induction false} StripRightSkips(s: string, post: string)
    requires forall k :: 0 <= k < |post| ==> IsSpace(post[k])
    requires s != [] && !IsSpace(s[|s| - 1])
    ensures StripRight(s + post) == s
    decreases |post|
  {
    if post != [] {
      var p := post[..|post| - 1];
      assert (s + post)[..|s + post| - 1] == s + p;
      StripRightSkips(s, p);
    } else {
      assert s + post == s;
    }
  }

  /** Python's p // m: the quotient rounded towards minus infinity. */
  function FloorDiv(p: int, m: int): int
    requires m != 0
  {
    if m > 0 || p % m == 0 then p / m else p / m - 1
  }

  /** Python's p % m: the remainder takes the sign of the divisor. */
  function FloorMod(p: int, m: int): (r: int)
    requires m != 0
    ensures m > 0 ==> 0 <= r < m
    ensures m < 0 ==> m < r <= 0
    ensures p == FloorDiv(p, m) * m + r
  {
    if m > 0 || p % m == 0 then p % m
    else
      assert (p / m - 1) * m == (p / m) * m - m;
      p % m + m
  }
}
