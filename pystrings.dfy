/** The few Python string operations the converters rely on:
    `''.join`, `sep.join`, `str.split(sep)`, `str.strip()`, `c * n` and `'%d' % n`. */
module PyStrings {

  /** `''.join(parts)`, and the flattening of a list of lists. */
  function Concat<T>(parts: seq<seq<T>>): (r: seq<T>)
  {
    if parts == [] then [] else parts[0] + Concat(parts[1..])
  }

  lemma {:induction false} ConcatAppend<T>(a: seq<seq<T>>, b: seq<seq<T>>)
    ensures Concat(a + b) == Concat(a) + Concat(b)
  {
    if a != [] {
      assert (a + b)[1..] == a[1..] + b;
      ConcatAppend(a[1..], b);
    } else {
      assert a + b == b;
    }
  }

  lemma ConcatSingle<T>(s: seq<T>)
    ensures Concat([s]) == s
  {
    assert [s][1..] == [];
  }

  /** `sep.join(parts)`: the parts with `sep` between neighbours; no parts give "". */
  function Join(sep: string, parts: seq<string>): (r: string)
  {
    if |parts| == 0 then ""
    else if |parts| == 1 then parts[0]
    else parts[0] + sep + Join(sep, parts[1..])
  }

  /** Joining two non-empty lists is joining their joins. */
  lemma {:induction false} JoinAppend(sep: string, a: seq<string>, b: seq<string>)
    requires |a| > 0 && |b| > 0
    ensures Join(sep, a + b) == Join(sep, a) + sep + Join(sep, b)
  {
    if |a| == 1 {
      assert (a + b)[1..] == b;
    } else {
      assert (a + b)[1..] == a[1..] + b;
      JoinAppend(sep, a[1..], b);
    }
  }

  /** `s.split(c)` for a one-character separator: always at least one piece,
      and no piece holds the separator. */
  function Split(s: string, c: char): (r: seq<string>)
    ensures |r| >= 1
    ensures forall i :: 0 <= i < |r| ==> c !in r[i]
  {
    if s == [] then [""]
    else if s[0] == c then [""] + Split(s[1..], c)
    else
      var rest := Split(s[1..], c);
      [[s[0]] + rest[0]] + rest[1..]
  }

  /** Joining the pieces of a split with the separator gives the string back. */
  lemma {:induction false} JoinSplit(s: string, c: char)
    ensures Join([c], Split(s, c)) == s
  {
    if s != [] {
      var rest := Split(s[1..], c);
      JoinSplit(s[1..], c);
      if s[0] == c {
        assert ([""] + rest)[1..] == rest;
        assert s == [c] + s[1..];
      } else {
        var r := [[s[0]] + rest[0]] + rest[1..];
        assert r[1..] == rest[1..];
        if |rest| > 1 {
          assert Join([c], rest) == rest[0] + [c] + Join([c], rest[1..]);
        }
        assert s == [s[0]] + s[1..];
      }
    }
  }

  /** A piece free of the separator stays whole at the head of a split. */
  lemma {:induction false} SplitPrefix(p: string, t: string, c: char)
    requires c !in p
    ensures Split(p + t, c) == [p + Split(t, c)[0]] + Split(t, c)[1..]
  {
    if p != [] {
      assert (p + t)[1..] == p[1..] + t;
      SplitPrefix(p[1..], t, c);
      assert [p[0]] + (p[1..] + Split(t, c)[0]) == p + Split(t, c)[0];
    } else {
      assert p + t == t;
      assert p + Split(t, c)[0] == Split(t, c)[0];
      assert Split(t, c) == [Split(t, c)[0]] + Split(t, c)[1..];
    }
  }

  /** Splitting a join of separator-free pieces gives the pieces back. */
  lemma {:induction false} SplitJoin(parts: seq<string>, c: char)
    requires |parts| >= 1
    requires forall i :: 0 <= i < |parts| ==> c !in parts[i]
    ensures Split(Join([c], parts), c) == parts
  {
    if |parts| == 1 {
      SplitPrefix(parts[0], "", c);
      assert parts[0] + "" == parts[0];
    } else {
      var tail := Join([c], parts[1..]);
      SplitJoin(parts[1..], c);
      assert Join([c], parts) == parts[0] + ([c] + tail);
      SplitPrefix(parts[0], [c] + tail, c);
      assert ([c] + tail)[1..] == tail;
      assert Split([c] + tail, c) == [""] + parts[1..];
      assert parts[0] + "" == parts[0];
      assert parts == [parts[0]] + parts[1..];
    }
  }

  /** Python's `str.isspace` on the ASCII range: space, tab, line feed,
      vertical tab, form feed, carriage return and the four separators 0x1C-0x1F. */
  predicate IsSpace(c: char)
  {
    c == ' ' || 9 <= c as int <= 13 || 28 <= c as int <= 31
  }

  /** `s.lstrip()`: the longest suffix of `s` that does not start with whitespace. */
  function StripLeft(s: string): (r: string)
    ensures |r| <= |s| && r == s[|s| - |r|..]
    ensures forall i :: 0 <= i < |s| - |r| ==> IsSpace(s[i])
    ensures r != [] ==> !IsSpace(r[0])
  {
    if s != [] && IsSpace(s[0]) then StripLeft(s[1..]) else s
  }

  /** `s.rstrip()`: the longest prefix of `s` that does not end with whitespace. */
  function StripRight(s: string): (r: string)
    ensures |r| <= |s| && r == s[..|r|]
    ensures forall i :: |r| <= i < |s| ==> IsSpace(s[i])
    ensures r != [] ==> !IsSpace(r[|r| - 1])
  {
    if s != [] && IsSpace(s[|s| - 1]) then StripRight(s[..|s| - 1]) else s
  }

  /** `s.strip()`: `s` without its leading and trailing whitespace. */
  function Strip(s: string): (r: string)
    ensures |r| <= |s|
    ensures r != [] ==> !IsSpace(r[0]) && !IsSpace(r[|r| - 1])
  {
    var l := StripLeft(s);
    var t := StripRight(l);
    assert t != [] ==> t[0] == l[0];
    t
  }

  /** Stripping twice is stripping once. */
  lemma StripIdempotent(s: string)
    ensures Strip(Strip(s)) == Strip(s)
  {
    var t := Strip(s);
    if t != [] {
      assert t[0] == StripLeft(s)[0];
      assert StripLeft(t) == t;
    }
  }

  /** `[c] * n` as Python computes `c * n`: empty for every `n <= 0`. */
  function Repeat(c: char, n: int): (r: string)
    ensures |r| == if n <= 0 then 0 else n
    ensures forall i :: 0 <= i < |r| ==> r[i] == c
  {
    if n <= 0 then "" else [c] + Repeat(c, n - 1)
  }

  predicate IsDigit(c: char)
  {
    '0' <= c <= '9'
  }

  /** `'%d' % n` for a natural number: its decimal digits, without leading zeros. */
  function DecimalString(n: nat): (r: string)
    ensures |r| >= 1
    ensures forall i :: 0 <= i < |r| ==> IsDigit(r[i])
    ensures |r| > 1 ==> r[0] != '0'
  {
    var d := ['0' + ((n % 10) as char)];
    if n < 10 then d else DecimalString(n / 10) + d
  }

  /** The value of a string of decimal digits. */
  function DecimalValue(s: string): nat
    requires forall i :: 0 <= i < |s| ==> IsDigit(s[i])
  {
    if s == [] then 0
    else
      assert IsDigit(s[|s| - 1]);
      10 * DecimalValue(s[..|s| - 1]) + (s[|s| - 1] as int - '0' as int)
  }

  /** Reading back the digits `'%d' % n` writes gives `n`. */
  lemma {:induction false} DecimalRoundTrip(n: nat)
    ensures DecimalValue(DecimalString(n)) == n
  {
    var d := ['0' + ((n % 10) as char)];
    if n >= 10 {
      var r := DecimalString(n);
      DecimalRoundTrip(n / 10);
      assert r[..|r| - 1] == DecimalString(n / 10);
    } else {
      assert d[..0] == [];
    }
  }
}
