// The file-name sanitiser `sanitize` (eda-backend/app.py, lines 17-18):
// a regular-expression substitution that replaces every maximal run of
// the characters backslash, slash, star, `?`, `"`, `<`, `>`, `|`, `:` and
// space by a single underscore.
module Sanitizer {

  /** A character of the class the sanitiser replaces. */
  predicate IsUnsafe(c: char) {
    || c == '\\' || c == '/' || c == '*' || c == '?' || c == '"'
    || c == '<' || c == '>' || c == '|' || c == ':' || c == ' '
  }

  predicate AllSafe(s: string) {
    forall i :: 0 <= i < |s| ==> !IsUnsafe(s[i])
  }

  predicate AllUnsafe(s: string) {
    forall i :: 0 <= i < |s| ==> IsUnsafe(s[i])
  }

  /** True when no run of unsafe characters crosses the boundary between `p` and `q`. */
  predicate RunBoundary(p: string, q: string) {
    p == [] || q == [] || !IsUnsafe(p[|p| - 1]) || !IsUnsafe(q[0])
  }

  /** What is left after the greedy `+` has consumed the leading run of unsafe characters. */
  function SkipRun(s: string): (r: string)
    ensures |r| <= |s|
    ensures r == [] || !IsUnsafe(r[0])
  {
    if |s| > 0 && IsUnsafe(s[0]) then SkipRun(s[1..]) else s
  }

  /** The greedy run consumes only unsafe characters and leaves a suffix. */
  lemma {:induction false} SkipRunSuffix(s: string)
    ensures SkipRun(s) == s[|s| - |SkipRun(s)|..]
    ensures forall i :: 0 <= i < |s| - |SkipRun(s)| ==> IsUnsafe(s[i])
  {
    if |s| > 0 && IsUnsafe(s[0]) {
      SkipRunSuffix(s[1..]);
      assert forall i :: 1 <= i < |s| ==> s[i] == s[1..][i - 1];
    }
  }

  /** `sanitize(name)`. */
  function Sanitize(s: string): (r: string)
    ensures |r| <= |s|
    decreases |s|
  {
    if s == [] then []
    else if IsUnsafe(s[0]) then "_" + Sanitize(SkipRun(s))
    else [s[0]] + Sanitize(s[1..])
  }

  /** The sanitised name holds none of the replaced characters. */
  lemma {:induction false} SanitizeIsSafe(s: string)
    ensures AllSafe(Sanitize(s))
    decreases |s|
  {
    if s != [] {
      if IsUnsafe(s[0]) {
        SanitizeIsSafe(SkipRun(s));
        assert Sanitize(s) == "_" + Sanitize(SkipRun(s));
      } else {
        SanitizeIsSafe(s[1..]);
        assert Sanitize(s) == [s[0]] + Sanitize(s[1..]);
      }
    }
  }

  /** A string that holds no unsafe character is left as it is. */
  lemma {:induction false} SanitizeSafe(s: string)
    requires AllSafe(s)
    ensures Sanitize(s) == s
  {
    if s != [] {
      assert !IsUnsafe(s[0]);
      SanitizeSafe(s[1..]);
    }
  }

  /** Sanitising twice is sanitising once. */
  lemma SanitizeIdempotent(s: string)
    ensures Sanitize(Sanitize(s)) == Sanitize(s)
  {
    SanitizeIsSafe(s);
    SanitizeSafe(Sanitize(s));
  }

  lemma {:induction false} SkipRunAll(s: string)
    requires AllUnsafe(s)
    ensures SkipRun(s) == []
  {
    if s != [] {
      assert AllUnsafe(s[1..]);
      SkipRunAll(s[1..]);
    }
  }

  /** A non-empty run of unsafe characters becomes exactly one underscore. */
  lemma SanitizeRun(run: string)
    requires run != [] && AllUnsafe(run)
    ensures Sanitize(run) == "_"
  {
    SkipRunAll(run);
  }

  lemma {:induction false} SkipRunAppend(p: string, q: string)
    requires p != [] && RunBoundary(p, q)
    ensures SkipRun(p) != [] ==> SkipRun(p + q) == SkipRun(p) + q
    ensures SkipRun(p) == [] ==> SkipRun(p + q) == q
  {
    if IsUnsafe(p[0]) {
      assert (p + q)[1..] == p[1..] + q;
      if p[1..] == [] {
        assert p[1..] + q == q;
        assert q == [] || !IsUnsafe(q[0]);
      } else {
        assert p[1..][|p[1..]| - 1] == p[|p| - 1];
        SkipRunAppend(p[1..], q);
      }
    }
  }

  /** Sanitising distributes over a concatenation that splits no run of unsafe characters. */
  lemma {:induction false} SanitizeAppend(p: string, q: string)
    requires RunBoundary(p, q)
    ensures Sanitize(p + q) == Sanitize(p) + Sanitize(q)
    decreases |p|, 1
  {
    if p == [] {
      assert p + q == q;
    } else if IsUnsafe(p[0]) {
      SanitizeAppendRun(p, q);
    } else {
      SanitizeAppendSafe(p, q);
    }
  }

  lemma {:induction false} SanitizeAppendRun(p: string, q: string)
    requires p != [] && IsUnsafe(p[0]) && RunBoundary(p, q)
    ensures Sanitize(p + q) == Sanitize(p) + Sanitize(q)
    decreases |p|, 0
  {
    SkipRunAppend(p, q);
    var rest := SkipRun(p);
    assert (p + q)[0] == p[0];
    assert Sanitize(p) == "_" + Sanitize(rest);
    if rest != [] {
      SkipRunSuffix(p);
      assert rest[|rest| - 1] == p[|p| - 1];
      SanitizeAppend(rest, q);
      calc {
        Sanitize(p + q);
        "_" + Sanitize(rest + q);
        "_" + Sanitize(rest) + Sanitize(q);
      }
    } else {
      calc {
        Sanitize(p + q);
        "_" + Sanitize(q);
      }
      assert Sanitize(p) == "_";
    }
  }

  lemma {:induction false} SanitizeAppendSafe(p: string, q: string)
    requires p != [] && !IsUnsafe(p[0]) && RunBoundary(p, q)
    ensures Sanitize(p + q) == Sanitize(p) + Sanitize(q)
    decreases |p|, 0
  {
    var tail := p[1..];
    assert (p + q)[1..] == tail + q;
    if tail != [] {
      assert tail[|tail| - 1] == p[|p| - 1];
    }
    SanitizeAppend(tail, q);
    calc {
      Sanitize(p + q);
      [p[0]] + Sanitize(tail + q);
      [p[0]] + Sanitize(tail) + Sanitize(q);
    }
  }

  /**
   * Each maximal run of unsafe characters maps to exactly one underscore,
   * and what lies on either side of it is sanitised independently.
   */
  lemma SanitizeMaximalRun(p: string, run: string, q: string)
    requires p == [] || !IsUnsafe(p[|p| - 1])
    requires run != [] && AllUnsafe(run)
    requires q == [] || !IsUnsafe(q[0])
    ensures Sanitize(p + run + q) == Sanitize(p) + "_" + Sanitize(q)
  {
    SanitizeAppend(p, run);
    SanitizeAppend(p + run, q);
    SanitizeRun(run);
  }

  /** A character outside the class is kept. */
  lemma SanitizeKeeps(c: char)
    requires !IsUnsafe(c)
    ensures Sanitize([c]) == [c]
  {
    SanitizeSafe([c]);
  }
}
