/**
 * Text helpers shared by the decoder: prefix tests, whitespace stripping,
 * Python's ordering of `str` values (code point by code point, a proper
 * prefix first) and `sorted` over a set of distinct strings.
 */
module Strings {

  /** `s.startswith(p)`. */
  predicate StartsWith(s: string, p: string) {
    |p| <= |s| && s[..|p|] == p
  }

  /** The ASCII characters that `str.strip()` removes from both ends. */
  predicate IsSpace(c: char) {
    c == ' ' || '\t' <= c <= '\r' || '\U{1c}' <= c <= '\U{1f}'
  }

  /**
   * The characters `int()` skips around a literal: those of `str.strip()`
   * except U+001C..U+001F, which are not white space to CPython's number
   * parser.
   */
  predicate IsIntSpace(c: char) {
    c == ' ' || '\t' <= c <= '\r'
  }

  /** `s.lstrip()` for the white space `space` describes. */
  function StripLeading(s: string, space: char -> bool): (r: string)
    ensures |r| <= |s|
    ensures r == [] || !space(r[0])
  {
    if s != [] && space(s[0]) then StripLeading(s[1..], space) else s
  }

  /** `s.rstrip()` for the white space `space` describes. */
  function StripTrailing(s: string, space: char -> bool): (r: string)
    ensures |r| <= |s|
    ensures r == [] || !space(r[|r| - 1])
  {
    if s != [] && space(s[|s| - 1]) then StripTrailing(s[..|s| - 1], space) else s
  }

  /** `lstrip` drops a run of leading white space and keeps the rest. */
  lemma {:induction false} StripLeadingDrops(s: string, space: char -> bool)
    ensures StripLeading(s, space) == s[|s| - |StripLeading(s, space)|..]
    ensures forall k :: 0 <= k < |s| - |StripLeading(s, space)| ==> space(s[k])
  {
    if s != [] && space(s[0]) {
      StripLeadingDrops(s[1..], space);
    }
  }

  /** `rstrip` drops a run of trailing white space and keeps the rest. */
  lemma {:induction false} StripTrailingDrops(s: string, space: char -> bool)
    ensures StripTrailing(s, space) == s[..|StripTrailing(s, space)|]
    ensures forall k :: |StripTrailing(s, space)| <= k < |s| ==> space(s[k])
  {
    if s != [] && space(s[|s| - 1]) {
      StripTrailingDrops(s[..|s| - 1], space);
    }
  }

  /** Python's `a < b` on `str`. */
  predicate Below(a: string, b: string)
    decreases |a|
  {
    if a == [] then b != []
    else if b == [] then false
    else if a[0] != b[0] then a[0] < b[0]
    else Below(a[1..], b[1..])
  }

  lemma {:induction false} BelowIrreflexive(a: string)
    ensures !Below(a, a)
    decreases |a|
  {
    if a != [] {
      BelowIrreflexive(a[1..]);
    }
  }

  lemma {:induction false} BelowTransitive(a: string, b: string, c: string)
    requires Below(a, b) && Below(b, c)
    ensures Below(a, c)
    decreases |a|
  {
    if a != [] && b != [] && c != [] && a[0] == b[0] && b[0] == c[0] {
      BelowTransitive(a[1..], b[1..], c[1..]);
    }
  }

  /** Two different strings are ordered one way or the other. */
  lemma {:induction false} BelowTotal(a: string, b: string)
    requires a != b
    ensures Below(a, b) || Below(b, a)
    decreases |a|
  {
    if a != [] && b != [] && a[0] == b[0] {
      assert a == [a[0]] + a[1..] && b == [b[0]] + b[1..];
      BelowTotal(a[1..], b[1..]);
    }
  }

  lemma {:induction false} BelowAsymmetric(a: string, b: string)
    requires Below(a, b)
    ensures !Below(b, a)
  {
    if Below(b, a) {
      BelowTransitive(a, b, a);
      BelowIrreflexive(a);
    }
  }

  /** Every element is below every later one: sorted, without repeats. */
  predicate Ascending(xs: seq<string>) {
    forall i, j :: 0 <= i < j < |xs| ==> Below(xs[i], xs[j])
  }

  /** `xs` with `x` put in its place; nothing changes if `x` is already in. */
  function Insert(xs: seq<string>, x: string): (r: seq<string>)
    requires Ascending(xs)
    ensures Ascending(r)
    ensures forall y :: y in r <==> y in xs || y == x
  {
    if xs == [] then [x]
    else if xs[0] == x then xs
    else if Below(x, xs[0]) then
      assert forall j :: 0 < j < |xs| ==> Below(x, xs[j]) by {
        forall j | 0 < j < |xs| {
          BelowTransitive(x, xs[0], xs[j]);
        }
      }
      [x] + xs
    else
      var tail := Insert(xs[1..], x);
      BelowTotal(x, xs[0]);
      assert forall y :: y in tail ==> Below(xs[0], y) by {
        forall y | y in tail
          ensures Below(xs[0], y)
        {
          if y != x {
            var j :| 0 <= j < |xs[1..]| && xs[1..][j] == y;
            assert xs[j + 1] == y;
          }
        }
      }
      [xs[0]] + tail
  }

  /**
   * Two ascending sequences with the same elements are equal: `sorted` of a
   * set of strings is determined by the set.
   */
  lemma {:induction false} AscendingUnique(a: seq<string>, b: seq<string>)
    requires Ascending(a) && Ascending(b)
    requires forall y :: y in a <==> y in b
    ensures a == b
    decreases |a|
  {
    if a != [] {
      assert a[0] in b;
    }
    if b != [] {
      assert b[0] in a;
    }
    if a != [] && b != [] {
      if a[0] != b[0] {
        assert a[0] in b && b[0] in a;
        var i :| 0 <= i < |b| && b[i] == a[0];
        var j :| 0 <= j < |a| && a[j] == b[0];
        assert Below(b[0], a[0]) by {
          assert i > 0;
        }
        assert Below(a[0], b[0]) by {
          assert j > 0;
        }
        BelowAsymmetric(a[0], b[0]);
      }
      forall y
        ensures y in a[1..] <==> y in b[1..]
      {
        if y in a[1..] {
          var k :| 1 <= k < |a| && a[k] == y;
          assert y in b;
          var i :| 0 <= i < |b| && b[i] == y;
          if i == 0 {
            BelowIrreflexive(a[0]);
          }
          assert b[1..][i - 1] == y;
        }
        if y in b[1..] {
          var k :| 1 <= k < |b| && b[k] == y;
          assert y in a;
          var i :| 0 <= i < |a| && a[i] == y;
          if i == 0 {
            BelowIrreflexive(b[0]);
          }
          assert a[1..][i - 1] == y;
        }
      }
      AscendingUnique(a[1..], b[1..]);
    }
  }

  /** An ascending sequence holds each element once: it has as many elements as its set. */
  lemma {:induction false} AscendingCardinality(xs: seq<string>)
    requires Ascending(xs)
    ensures |set y | y in xs| == |xs|
    decreases |xs|
  {
    if xs != [] {
      var tail := xs[1..];
      assert Ascending(tail) by {
        forall i, j | 0 <= i < j < |tail|
          ensures Below(tail[i], tail[j])
        {
          assert tail[i] == xs[i + 1] && tail[j] == xs[j + 1];
        }
      }
      AscendingCardinality(tail);
      assert xs[0] !in tail by {
        if xs[0] in tail {
          var k :| 0 <= k < |tail| && tail[k] == xs[0];
          assert Below(xs[0], xs[k + 1]);
          BelowIrreflexive(xs[0]);
        }
      }
      assert xs == [xs[0]] + tail;
      assert (set y | y in xs) == (set y | y in tail) + {xs[0]};
    }
  }

  /**
   * The ascending sequence of the elements of `s`, built by insertion; by
   * `AscendingUnique` it is the only one.
   */
  ghost function SortedOf(s: set<string>): (r: seq<string>)
    ensures Ascending(r)
    ensures forall y :: y in r <==> y in s
  {
    if s == {} then []
    else
      var x :| x in s;
      Insert(SortedOf(s - {x}), x)
  }

  /**
   * `sorted(s)` for a set of strings: the ascending sequence of exactly the
   * elements of `s`, each once.
   */
  method SortSet(s: set<string>) returns (r: seq<string>)
    ensures r == SortedOf(s)
    ensures Ascending(r)
    ensures forall y :: y in r <==> y in s
    ensures |r| == |s|
  {
    r := [];
    var rest := s;
    while rest != {}
      invariant Ascending(r)
      invariant rest <= s
      invariant forall y :: y in r <==> y in s && y !in rest
      decreases |rest|
    {
      var x :| x in rest;
      r := Insert(r, x);
      rest := rest - {x};
    }
    AscendingCardinality(r);
    assert (set y | y in r) == s;
    AscendingUnique(r, SortedOf(s));
  }
}
