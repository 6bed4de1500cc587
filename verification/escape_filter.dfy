/** The ANSI-escape stripper of rst.py (unfunk and its generator not_funk).

    not_funk is a two-state character filter.  Parked in its first inner
    loop it answers "keep" for every character except ESC, which moves it to
    its second inner loop; there it answers "drop" for every character, and
    the first lowercase ASCII letter takes it back to the first loop (that
    letter is still dropped).  This treats any lowercase letter as the final
    byte of an ECMA-48 control sequence, a loose reading of section 5.4 of
    ECMA-48.  The generator is modelled as an explicit state and a pure step
    function; unfunk is the fold of that step over the string. */
module EscapeFilter {
  import opened Strings

  /** U+001B ESCAPE. */
  const Esc: char := '\U{1B}'

  predicate IsLower(c: char) {
    'a' <= c <= 'z'
  }

  /** Where not_funk is suspended between two sends.  After the final letter
      of a sequence the generator is back in its first loop with its flag
      still false, but the flag is reset before the next answer, so that
      position is the same state as Normal. */
  datatype FilterState = Normal | Escape

  /** One send(c): the generator's next state and whether c is kept.  In
      Normal everything but ESC is kept and ESC moves to Escape; in Escape
      everything is dropped and a lowercase letter moves back to Normal. */
  function Send(st: FilterState, c: char): (r: (FilterState, bool))
    ensures r.1 <==> st == Normal && c != Esc
    ensures r.0 == Escape <==> (st == Normal && c == Esc) || (st == Escape && !IsLower(c))
  {
    match st
    case Normal => if c == Esc then (Escape, false) else (Normal, true)
    case Escape => if IsLower(c) then (Normal, false) else (Escape, false)
  }

  /** The characters of s that the filter keeps when s is sent to it one
      character at a time starting in state st: no ESC ever survives, and
      the survivors are a subsequence of s. */
  function Run(st: FilterState, s: String): (r: String)
    ensures Esc !in r
    ensures IsSubsequence(r, s)
    decreases |s|
  {
    if s == [] then []
    else
      var step := Send(st, s[0]);
      var rest := Run(step.0, s[1..]);
      if step.1 then
        assert ([s[0]] + rest)[1..] == rest;
        [s[0]] + rest
      else
        rest
  }

  /** The state the filter is in after s has been sent from st. */
  function After(st: FilterState, s: String): FilterState
    decreases |s|
  {
    if s == [] then st else After(Send(st, s[0]).0, s[1..])
  }

  /** rst.py's unfunk: a fresh generator, primed, then fed every character
      of s; the result keeps no ESC and is never longer than s. */
  function Unfunk(s: String): (r: String)
    ensures Esc !in r
    ensures IsSubsequence(r, s)
    ensures |r| <= |s|
  {
    SubsequenceLength(Run(Normal, s), s);
    Run(Normal, s)
  }

  /** unfunk as rst.py drives it: one send per character, in order, keeping
      the characters the generator answers true for. */
  method UnfunkStreaming(s: String) returns (r: String)
    ensures r == Unfunk(s)
  {
    var st := Normal;
    r := [];
    var i := 0;
    while i < |s|
      invariant 0 <= i <= |s|
      invariant r == Run(Normal, s[..i])
      invariant st == After(Normal, s[..i])
    {
      RunAppend(Normal, s[..i], [s[i]]);
      AfterAppend(Normal, s[..i], [s[i]]);
      assert s[..i + 1] == s[..i] + [s[i]];
      var step := Send(st, s[i]);
      if step.1 {
        r := r + [s[i]];
      }
      st := step.0;
      i := i + 1;
    }
    assert s[..i] == s;
  }

  lemma {:induction false} AfterAppend(st: FilterState, a: String, b: String)
    ensures After(st, a + b) == After(After(st, a), b)
    decreases |a|
  {
    if a == [] {
      assert a + b == b;
    } else {
      assert (a + b)[1..] == a[1..] + b;
      AfterAppend(Send(st, a[0]).0, a[1..], b);
    }
  }

  /** Feeding a + b is feeding a, then feeding b from wherever a left the
      filter. */
  lemma {:induction false} RunAppend(st: FilterState, a: String, b: String)
    ensures Run(st, a + b) == Run(st, a) + Run(After(st, a), b)
    decreases |a|
  {
    if a == [] {
      assert a + b == b;
    } else {
      assert (a + b)[1..] == a[1..] + b;
      RunAppend(Send(st, a[0]).0, a[1..], b);
    }
  }

  /** Without an ESC the filter never leaves Normal and keeps everything. */
  lemma {:induction false} RunEscFree(s: String)
    requires Esc !in s
    ensures Run(Normal, s) == s
    ensures After(Normal, s) == Normal
    decreases |s|
  {
    if s != [] {
      assert Esc !in s[1..];
      RunEscFree(s[1..]);
    }
  }

  /** In the escape state, characters that are not lowercase letters are
      all dropped and the filter stays in that state. */
  lemma {:induction false} EscapeDropsNonLetters(m: String)
    requires forall i | 0 <= i < |m| :: !IsLower(m[i])
    ensures Run(Escape, m) == []
    ensures After(Escape, m) == Escape
    decreases |m|
  {
    if m != [] {
      EscapeDropsNonLetters(m[1..]);
    }
  }

  /** unfunk leaves a string that has no ESC in it unchanged. */
  lemma UnfunkEscFree(s: String)
    requires Esc !in s
    ensures Unfunk(s) == s
  {
    RunEscFree(s);
  }

  /** unfunk is idempotent. */
  lemma UnfunkIdempotent(s: String)
    ensures Unfunk(Unfunk(s)) == Unfunk(s)
  {
    UnfunkEscFree(Unfunk(s));
  }

  /** Text without ESC passes through unchanged and leaves the filter in
      Normal. */
  lemma EscFreePrefix(p: String, x: String)
    requires Esc !in p
    ensures Run(Normal, p + x) == p + Run(Normal, x)
  {
    RunEscFree(p);
    RunAppend(Normal, p, x);
  }

  /** In the escape state, text without a lowercase letter is swallowed
      and the filter stays in that state. */
  lemma NonLetterPrefix(m: String, x: String)
    requires forall i | 0 <= i < |m| :: !IsLower(m[i])
    ensures Run(Escape, m + x) == Run(Escape, x)
  {
    EscapeDropsNonLetters(m);
    RunAppend(Escape, m, x);
  }

  /** An ESC, the characters after it up to and including the first
      lowercase letter are removed; the text before the ESC is kept and the
      text after the letter is filtered afresh. */
  lemma UnfunkTerminated(p: String, m: String, l: char, t: String)
    requires Esc !in p
    requires forall i | 0 <= i < |m| :: !IsLower(m[i])
    requires IsLower(l)
    ensures Unfunk(p + [Esc] + m + [l] + t) == p + Unfunk(t)
  {
    var tail := [l] + t;
    var rest := [Esc] + (m + tail);
    assert p + [Esc] + m + [l] + t == p + rest;
    EscFreePrefix(p, rest);
    assert rest[1..] == m + tail;
    NonLetterPrefix(m, tail);
    assert tail[1..] == t;
  }

  /** An ESC that no lowercase letter follows removes the whole rest of the
      string. */
  lemma UnfunkUnterminated(p: String, m: String)
    requires Esc !in p
    requires forall i | 0 <= i < |m| :: !IsLower(m[i])
    ensures Unfunk(p + [Esc] + m) == p
  {
    EscFreePrefix(p, [Esc] + m);
    assert p + [Esc] + m == p + ([Esc] + m);
    assert ([Esc] + m)[1..] == m;
    EscapeDropsNonLetters(m);
  }

  // ---------------------------------------------------------------------
  // An independent, state-free definition of the same filter
  // ---------------------------------------------------------------------

  /** What remains of s after its first lowercase letter; nothing when s
      has no lowercase letter. */
  function AfterFinal(s: String): (r: String)
    ensures |r| <= |s|
    ensures (forall i | 0 <= i < |s| :: !IsLower(s[i])) ==> r == []
  {
    if s == [] then []
    else if IsLower(s[0]) then s[1..]
    else AfterFinal(s[1..])
  }

  /** Removes every escape sequence from s: an ESC together with every
      character up to and including the next lowercase letter. */
  function Strip(s: String): String
    decreases |s|
  {
    if s == [] then []
    else if s[0] == Esc then Strip(AfterFinal(s[1..]))
    else [s[0]] + Strip(s[1..])
  }

  /** In the escape state the filter produces exactly what the Normal state
      produces from the text after the first lowercase letter. */
  lemma {:induction false} EscapeSkipsToFinal(m: String)
    ensures Run(Escape, m) == Run(Normal, AfterFinal(m))
    decreases |m|
  {
    if m != [] && !IsLower(m[0]) {
      EscapeSkipsToFinal(m[1..]);
    }
  }

  /** The generator-driven filter agrees with the state-free definition on
      every string. */
  lemma {:induction false} UnfunkIsStrip(s: String)
    ensures Unfunk(s) == Strip(s)
    decreases |s|
  {
    if s != [] {
      if s[0] == Esc {
        EscapeSkipsToFinal(s[1..]);
        UnfunkIsStrip(AfterFinal(s[1..]));
      } else {
        UnfunkIsStrip(s[1..]);
      }
    }
  }

  // ---------------------------------------------------------------------
  // Two concrete traceback fragments
  // ---------------------------------------------------------------------

  /** A word coloured red and then reset, as IPython writes tracebacks,
      comes out as the bare word. */
  lemma ColouredWord()
    ensures Unfunk([Esc] + "[31m" + "Error" + [Esc] + "[0m") == "Error"
  {
    var s := [Esc] + "[31m" + "Error" + [Esc] + "[0m";
    assert s == [] + [Esc] + "[31" + ['m'] + ("Error" + [Esc] + "[0m");
    UnfunkTerminated([], "[31", 'm', "Error" + [Esc] + "[0m");
    assert "Error" + [Esc] + "[0m" == "Error" + [Esc] + "[0" + ['m'] + [];
    UnfunkTerminated("Error", "[0", 'm', []);
  }

  /** Only a lowercase letter ends a sequence: after an erase-line
      sequence, whose final byte is the uppercase K, the filter keeps
      dropping up to the next lowercase letter, here the first letter of
      the following word. */
  lemma UppercaseFinalByteNotRecognised()
    ensures Unfunk([Esc] + "[2K" + "done") == "one"
  {
    assert [Esc] + "[2K" + "done" == [] + [Esc] + "[2K" + ['d'] + "one";
    UnfunkTerminated([], "[2K", 'd', "one");
    UnfunkEscFree("one");
  }
}
