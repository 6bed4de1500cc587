/** The Python string and list primitives that rst.py relies on (rstrip,
    split, replace, startswith, slicing), each with a specification of what
    it computes and, where it has one, its inverse. */
module Strings {
  import opened Results

  type String = seq<char>

  /** Python's str.startswith: p is a prefix of s. */
  predicate StartsWith(s: String, p: String) {
    p <= s
  }

  /** Number of occurrences of c in s. */
  function Count(c: char, s: String): nat {
    if s == [] then 0 else (if s[0] == c then 1 else 0) + Count(c, s[1..])
  }

  /** s with every occurrence of c removed. */
  function Without(c: char, s: String): String {
    if s == [] then [] else (if s[0] == c then [] else [s[0]]) + Without(c, s[1..])
  }

  lemma {:induction false} CountAppend(c: char, a: String, b: String)
    ensures Count(c, a + b) == Count(c, a) + Count(c, b)
    decreases |a|
  {
    if a != [] {
      assert (a + b)[1..] == a[1..] + b;
      CountAppend(c, a[1..], b);
    } else {
      assert a + b == b;
    }
  }

  lemma {:induction false} WithoutAppend(c: char, a: String, b: String)
    ensures Without(c, a + b) == Without(c, a) + Without(c, b)
    decreases |a|
  {
    if a != [] {
      assert (a + b)[1..] == a[1..] + b;
      WithoutAppend(c, a[1..], b);
    } else {
      assert a + b == b;
    }
  }

  // ---------------------------------------------------------------------
  // rstrip
  // ---------------------------------------------------------------------

  /** Python's str.rstrip() with no argument: the longest prefix of s that
      does not end in whitespace.  Which characters count as whitespace is
      the parameter ws. */
  function RStrip(s: String, ws: char -> bool): (r: String)
    ensures r <= s
    ensures r == [] || !ws(r[|r| - 1])
    ensures forall i | |r| <= i < |s| :: ws(s[i])
  {
    if s != [] && ws(s[|s| - 1]) then RStrip(s[..|s| - 1], ws) else s
  }

  /** The three properties in RStrip's contract determine its result: any
      prefix that keeps no trailing whitespace and drops only whitespace is
      the rstripped string. */
  lemma RStripUnique(s: String, ws: char -> bool, t: String)
    requires t <= s
    requires t == [] || !ws(t[|t| - 1])
    requires forall i | |t| <= i < |s| :: ws(s[i])
    ensures t == RStrip(s, ws)
  {
  }

  // ---------------------------------------------------------------------
  // join and split on a single character
  // ---------------------------------------------------------------------

  /** Python's sep.join(parts). */
  function Join(parts: seq<String>, sep: String): String {
    if |parts| == 0 then []
    else if |parts| == 1 then parts[0]
    else parts[0] + sep + Join(parts[1..], sep)
  }

  /** Python's s.split(d) for a one-character separator d: the maximal
      pieces between occurrences of d, one more piece than there are
      occurrences, so that joining them with d gives back s. */
  function Split(s: String, d: char): (r: seq<String>)
    ensures |r| == Count(d, s) + 1
    ensures forall i | 0 <= i < |r| :: d !in r[i]
    ensures Join(r, [d]) == s
  {
    if s == [] then [[]]
    else
      var rest := Split(s[1..], d);
      if s[0] == d then
        assert ([[]] + rest)[1..] == rest;
        [[]] + rest
      else
        var r := [[s[0]] + rest[0]] + rest[1..];
        assert r[1..] == rest[1..];
        assert s == [s[0]] + s[1..];
        r
  }

  lemma {:induction false} SplitNoSeparator(s: String, d: char)
    requires d !in s
    ensures Split(s, d) == [s]
    decreases |s|
  {
    if s != [] {
      assert d !in s[1..];
      SplitNoSeparator(s[1..], d);
    }
  }

  lemma {:induction false} SplitPiece(a: String, d: char, t: String)
    requires d !in a
    ensures Split(a + [d] + t, d) == [a] + Split(t, d)
    decreases |a|
  {
    if a == [] {
      assert a + [d] + t == [d] + t;
      assert ([d] + t)[1..] == t;
    } else {
      assert (a + [d] + t)[1..] == a[1..] + [d] + t;
      assert d !in a[1..];
      SplitPiece(a[1..], d, t);
      assert [a[0]] + a[1..] == a;
    }
  }

  /** Split inverts Join: pieces that do not contain the separator are
      recovered exactly from their join. */
  lemma {:induction false} SplitOfJoin(parts: seq<String>, d: char)
    requires |parts| >= 1
    requires forall i | 0 <= i < |parts| :: d !in parts[i]
    ensures Split(Join(parts, [d]), d) == parts
    decreases |parts|
  {
    if |parts| == 1 {
      SplitNoSeparator(parts[0], d);
    } else {
      assert d !in parts[0];
      SplitPiece(parts[0], d, Join(parts[1..], [d]));
      SplitOfJoin(parts[1..], d);
      assert [parts[0]] + parts[1..] == parts;
    }
  }

  // ---------------------------------------------------------------------
  // replace('`', '``')
  // ---------------------------------------------------------------------

  /** Python's s.replace('`', '``'). */
  function DoubleBackticks(s: String): (r: String)
    ensures |r| == |s| + Count('`', s)
    ensures Count('`', r) == 2 * Count('`', s)
    ensures Without('`', r) == Without('`', s)
  {
    if s == [] then []
    else
      var rest := DoubleBackticks(s[1..]);
      var head := if s[0] == '`' then "``" else [s[0]];
      CountAppend('`', head, rest);
      WithoutAppend('`', head, rest);
      head + rest
  }

  /** Collapses each pair of backticks back into one: the inverse of
      DoubleBackticks, which shows that the rewrite loses nothing. */
  function Undouble(s: String): String {
    if |s| >= 2 && s[0] == '`' && s[1] == '`' then "`" + Undouble(s[2..])
    else if s == [] then []
    else [s[0]] + Undouble(s[1..])
  }

  /** Doubling backticks loses nothing: collapsing the pairs restores the
      original line. */
  lemma {:induction false} UndoubleDouble(s: String)
    ensures Undouble(DoubleBackticks(s)) == s
    decreases |s|
  {
    if s != [] {
      UndoubleDouble(s[1..]);
      var rest := DoubleBackticks(s[1..]);
      if s[0] == '`' {
        assert ("``" + rest)[2..] == rest;
      } else {
        assert ([s[0]] + rest)[1..] == rest;
      }
    }
  }

  // ---------------------------------------------------------------------
  // split(sep, 1) and slicing
  // ---------------------------------------------------------------------

  /** p occurs in s starting at index i. */
  predicate OccursAt(s: String, p: String, i: nat) {
    i + |p| <= |s| && s[i..i + |p|] == p
  }

  /** Python's s.find(p, from), None for -1: the first index at or after
      from where p occurs. */
  function IndexOf(s: String, p: String, from: nat): (r: Option<nat>)
    ensures r.Some? ==> from <= r.value && OccursAt(s, p, r.value)
    ensures r.Some? ==> forall j: nat | from <= j < r.value :: !OccursAt(s, p, j)
    ensures r.None? ==> forall j: nat | from <= j :: !OccursAt(s, p, j)
    decreases |s| - from
  {
    if from + |p| > |s| then None
    else if OccursAt(s, p, from) then Some(from)
    else IndexOf(s, p, from + 1)
  }

  /** Python's s.split(sep, 1) when it yields two pieces: the text before
      the first occurrence of sep and the text after it; None when sep does
      not occur (the one-element list that makes a two-name unpacking
      raise). */
  function SplitOnce(s: String, sep: String): (r: Option<(String, String)>)
    ensures r.None? <==> forall j: nat :: !OccursAt(s, sep, j)
    ensures r.Some? ==> r.value.0 + sep + r.value.1 == s
    ensures r.Some? ==> forall j: nat | j < |r.value.0| :: !OccursAt(s, sep, j)
  {
    match IndexOf(s, sep, 0)
    case None => None
    case Some(i) =>
      assert s[..i] + sep + s[i + |sep|..] == s by {
        assert s == s[..i] + s[i..i + |sep|] + s[i + |sep|..];
      }
      Some((s[..i], s[i + |sep|..]))
  }

  /** Python's s[n:] for n >= 0: empty when s is shorter than n. */
  function Drop(s: String, n: nat): (r: String)
    ensures n <= |s| ==> s[..n] + r == s
    ensures |s| <= n ==> r == []
  {
    if |s| <= n then [] else s[n..]
  }

  /** Python's s[:-1]: everything but the last character, empty for the
      empty string. */
  function DropLast(s: String): (r: String)
    ensures s != [] ==> r + [s[|s| - 1]] == s
    ensures s == [] ==> r == []
  {
    if s == [] then [] else s[..|s| - 1]
  }

  /** Python's c * n for a one-character string c. */
  function Repeat(c: char, n: nat): (r: String)
    ensures |r| == n
    ensures forall i | 0 <= i < n :: r[i] == c
  {
    seq(n, _ => c)
  }

  // ---------------------------------------------------------------------
  // subsequences
  // ---------------------------------------------------------------------

  /** a can be obtained from b by deleting characters. */
  predicate IsSubsequence(a: String, b: String)
    decreases |b|
  {
    a == [] || (b != [] && ((a[0] == b[0] && IsSubsequence(a[1..], b[1..])) || IsSubsequence(a, b[1..])))
  }

  lemma {:induction false} SubsequenceLength(a: String, b: String)
    requires IsSubsequence(a, b)
    ensures |a| <= |b|
    decreases |b|
  {
    if a != [] {
      if a[0] == b[0] && IsSubsequence(a[1..], b[1..]) {
        SubsequenceLength(a[1..], b[1..]);
      } else {
        SubsequenceLength(a, b[1..]);
      }
    }
  }
}
