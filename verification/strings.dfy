/**
 * The Python string operations the report script relies on: `str.replace(c, "")`,
 * `str.split(sep)` with an explicit one-character separator, `sep.join(parts)`,
 * the whitespace class of `str.isspace()` and `\s`, and the whitespace strip
 * `int()` applies to its argument.
 */
module Strings {

  /** The characters `str.isspace()` accepts, which is also the regular-expression
      class `\s` on `str` patterns. */
  predicate IsSpace(c: char)
  {
    c == ' ' || ('\t' <= c <= '\r') || ('\U{1c}' <= c <= '\U{1f}')
    || c == '\U{85}' || c == '\U{a0}' || c == '\U{1680}'
    || ('\U{2000}' <= c <= '\U{200a}') || c == '\U{2028}' || c == '\U{2029}'
    || c == '\U{202f}' || c == '\U{205f}' || c == '\U{3000}'
  }

  /**
   * The characters `int(s)` skips around its digits. It first turns every non-ASCII
   * whitespace character into a space and keeps ASCII characters as they are, then
   * skips the C-locale set: space and `\t` to `\r`. The ASCII separators `\x1c` to
   * `\x1f` count for `str.isspace()` but not here.
   */
  predicate IsIntSpace(c: char)
  {
    c == ' ' || ('\t' <= c <= '\r') || (c >= '\U{80}' && IsSpace(c))
  }

  /** Number of occurrences of `c` in `s`. */
  function Count(s: string, c: char): nat
  {
    if s == [] then 0 else (if s[0] == c then 1 else 0) + Count(s[1..], c)
  }

  /** `s.replace(c, "")`: every occurrence of `c` removed, everything else kept in order. */
  function RemoveAll(s: string, c: char): (r: string)
    ensures c !in r
    ensures |r| == |s| - Count(s, c)
    ensures forall x :: x != c ==> (x in r <==> x in s)
  {
    if s == [] then []
    else
      var rest := RemoveAll(s[1..], c);
      assert forall x :: x in s <==> x == s[0] || x in s[1..];
      if s[0] == c then rest else [s[0]] + rest
  }

  lemma {:induction false} RemoveAllAppend(a: string, b: string, c: char)
    ensures RemoveAll(a + b, c) == RemoveAll(a, c) + RemoveAll(b, c)
  {
    if a != [] {
      assert (a + b)[1..] == a[1..] + b;
      RemoveAllAppend(a[1..], b, c);
    } else {
      assert a + b == b;
    }
  }

  lemma {:induction false} RemoveAllAbsent(s: string, c: char)
    requires c !in s
    ensures RemoveAll(s, c) == s
  {
    if s != [] {
      assert c !in s[1..] by { assert forall x :: x in s[1..] ==> x in s; }
      RemoveAllAbsent(s[1..], c);
      assert [s[0]] + s[1..] == s;
    }
  }

  /**
   * `s.split(sep)`: the pieces between consecutive occurrences of `sep`. There is
   * always one piece more than there are separators, and no piece holds `sep`.
   */
  function Split(s: string, sep: char): (r: seq<string>)
    ensures |r| == Count(s, sep) + 1
    ensures forall i :: 0 <= i < |r| ==> sep !in r[i]
  {
    if s == [] then [""]
    else
      var rest := Split(s[1..], sep);
      if s[0] == sep then [""] + rest
      else
        assert forall i :: 1 <= i < |rest| ==> ([[s[0]] + rest[0]] + rest[1..])[i] == rest[i];
        [[s[0]] + rest[0]] + rest[1..]
  }

  /** `sep.join(parts)`. */
  function Join(parts: seq<string>, sep: string): string
  {
    if |parts| == 0 then ""
    else if |parts| == 1 then parts[0]
    else parts[0] + sep + Join(parts[1..], sep)
  }

  /** Joining the pieces of a split with the same separator gives the string back. */
  lemma {:induction false} JoinSplit(s: string, sep: char)
    ensures Join(Split(s, sep), [sep]) == s
  {
    if s != [] {
      var rest := Split(s[1..], sep);
      JoinSplit(s[1..], sep);
      if s[0] == sep {
        assert Split(s, sep) == [""] + rest;
        assert ([""] + rest)[1..] == rest;
      } else {
        var r := [[s[0]] + rest[0]] + rest[1..];
        assert Split(s, sep) == r;
        if |rest| == 1 {
          assert Join(rest, [sep]) == rest[0];
        } else {
          assert r[1..] == rest[1..];
          assert Join(rest, [sep]) == rest[0] + [sep] + Join(rest[1..], [sep]);
        }
      }
    }
  }

  /** A string free of the separator splits into itself alone. */
  lemma {:induction false} SplitAbsent(s: string, sep: char)
    requires sep !in s
    ensures Split(s, sep) == [s]
  {
    if s != [] {
      assert sep !in s[1..] by { assert forall x :: x in s[1..] ==> x in s; }
      SplitAbsent(s[1..], sep);
      assert [s[0]] + s[1..] == s;
    }
  }

  /** Splitting at a separator that follows a separator-free prefix peels that prefix off. */
  lemma {:induction false} SplitAfter(a: string, sep: char, b: string)
    requires sep !in a
    ensures Split(a + [sep] + b, sep) == [a] + Split(b, sep)
  {
    if a == [] {
      assert a + [sep] + b == [sep] + b;
      assert ([sep] + b)[1..] == b;
    } else {
      assert sep !in a[1..] by { assert forall x :: x in a[1..] ==> x in a; }
      SplitAfter(a[1..], sep, b);
      assert (a + [sep] + b)[1..] == a[1..] + [sep] + b;
      assert [a[0]] + a[1..] == a;
    }
  }

  /** Splitting a join of separator-free pieces gives the pieces back. */
  lemma {:induction false} SplitJoin(parts: seq<string>, sep: char)
    requires |parts| > 0
    requires forall i :: 0 <= i < |parts| ==> sep !in parts[i]
    ensures Split(Join(parts, [sep]), sep) == parts
  {
    if |parts| == 1 {
      SplitAbsent(parts[0], sep);
    } else {
      SplitJoin(parts[1..], sep);
      SplitAfter(parts[0], sep, Join(parts[1..], [sep]));
      assert [parts[0]] + parts[1..] == parts;
    }
  }

  /** A single piece joins to itself, whatever the separator. */
  lemma JoinOne(x: string, sep: string)
    ensures Join([x], sep) == x
  {
  }

  /** A join can be cut between any two pieces: the joins of the two halves, with the
      separator between them, make the join of the whole list. */
  lemma {:induction false} JoinConcat(parts: seq<string>, sep: string, i: nat)
    requires 0 < i < |parts|
    ensures Join(parts[..i], sep) + sep + Join(parts[i..], sep) == Join(parts, sep)
  {
    if i > 1 {
      var tail := parts[1..];
      JoinConcat(tail, sep, i - 1);
      assert parts[..i][1..] == tail[..i - 1];
      assert tail[i - 1..] == parts[i..];
      assert Join(parts[..i], sep) == parts[0] + sep + Join(tail[..i - 1], sep);
    }
  }

  /** The whitespace `int()` skips before the sign. */
  function TrimStart(s: string): (r: string)
    ensures |r| <= |s| && r == s[|s| - |r|..]
    ensures forall i :: 0 <= i < |s| - |r| ==> IsIntSpace(s[i])
    ensures r == [] || !IsIntSpace(r[0])
  {
    if s != [] && IsIntSpace(s[0]) then TrimStart(s[1..]) else s
  }

  /** The whitespace `int()` skips after the digits. */
  function TrimEnd(s: string): (r: string)
    ensures |r| <= |s| && r == s[..|r|]
    ensures forall i :: |r| <= i < |s| ==> IsIntSpace(s[i])
    ensures r == [] || !IsIntSpace(r[|r| - 1])
  {
    if s != [] && IsIntSpace(s[|s| - 1]) then TrimEnd(s[..|s| - 1]) else s
  }

  /** Both ends of `int()`'s whitespace skip: what is left neither starts nor ends with
      such whitespace, and a string that already does not is kept whole. */
  function Strip(s: string): (r: string)
    ensures |r| <= |s|
    ensures r == [] || (!IsIntSpace(r[0]) && !IsIntSpace(r[|r| - 1]))
    ensures (s == [] || (!IsIntSpace(s[0]) && !IsIntSpace(s[|s| - 1]))) ==> r == s
  {
    TrimEnd(TrimStart(s))
  }
}
