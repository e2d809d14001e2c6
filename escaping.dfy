/**
 * The label escaping routine of the date store (`DatabaseTools.escapeLabel`).
 *
 * Its regular expression has no character class: it matches only the exact
 * six-character sequence  \/"'`%  and, because `$0` is not a replacement
 * pattern in JavaScript, every match is replaced by the literal three
 * characters  \$0 . Matches are found left to right and do not overlap.
 */
module Escaping {

  /** The six characters the expression matches, in this order. */
  const Pattern: string := "\\/\"'`%"

  /** The literal text each match is replaced with. */
  const Replacement: string := "\\$0"

  /** True when the pattern starts at index `i` of `s`. */
  predicate OccursAt(s: string, i: int)
  {
    0 <= i && i + |Pattern| <= |s| && s[i..i + |Pattern|] == Pattern
  }

  /** True when the pattern occurs nowhere in `s`. */
  predicate PatternFree(s: string)
  {
    forall i :: 0 <= i <= |s| - |Pattern| ==> !OccursAt(s, i)
  }

  /** Dropping the first character keeps a label pattern-free. */
  lemma PatternFreeTail(s: string)
    requires s != [] && PatternFree(s)
    ensures PatternFree(s[1..])
  {
    forall i | 0 <= i <= |s[1..]| - |Pattern|
      ensures !OccursAt(s[1..], i)
    {
      assert !OccursAt(s, i + 1);
      assert s[1..][i..i + |Pattern|] == s[i + 1..i + 1 + |Pattern|];
    }
  }

  /** `label.replace(/\\\/\"\'\`\%/gi, "\\$0")`: a left-to-right global rewrite. */
  function EscapeLabel(s: string): (r: string)
    ensures |r| <= |s|
    decreases |s|
  {
    if |s| < |Pattern| then s
    else if s[..|Pattern|] == Pattern then Replacement + EscapeLabel(s[|Pattern|..])
    else [s[0]] + EscapeLabel(s[1..])
  }

  /** A label without the pattern is left exactly as it is. */
  lemma {:induction false} EscapeIdentity(s: string)
    requires PatternFree(s)
    ensures EscapeLabel(s) == s
    decreases |s|
  {
    if |s| >= |Pattern| {
      assert !OccursAt(s, 0);
      PatternFreeTail(s);
      EscapeIdentity(s[1..]);
    }
  }

  /** A label that contains the pattern gets strictly shorter. */
  lemma {:induction false} EscapeShortens(s: string, i: int)
    requires OccursAt(s, i)
    ensures |EscapeLabel(s)| < |s|
    decreases |s|
  {
    if s[..|Pattern|] != Pattern {
      assert i != 0;
      assert s[1..][i - 1..i - 1 + |Pattern|] == s[i..i + |Pattern|];
      EscapeShortens(s[1..], i - 1);
    }
  }

  /** Both directions: escaping changes a label exactly when the label contains the pattern. */
  lemma EscapeIsIdentityIff(s: string)
    ensures EscapeLabel(s) == s <==> PatternFree(s)
  {
    if PatternFree(s) {
      EscapeIdentity(s);
    } else {
      var i :| 0 <= i <= |s| - |Pattern| && OccursAt(s, i);
      EscapeShortens(s, i);
    }
  }

  /** A non-empty pattern-free prefix stops a match at the very start. */
  lemma NoMatchBeforeOccurrence(u: string, v: string)
    requires u != [] && PatternFree(u)
    ensures (u + Pattern + v)[..|Pattern|] != Pattern
  {
    var s := u + Pattern + v;
    if |u| >= |Pattern| {
      assert u[..|Pattern|] == s[..|Pattern|];
      assert !OccursAt(u, 0);
    } else {
      assert s[|u|] == '\\' != Pattern[|u|];
    }
  }

  /**
   * No proper suffix of the pattern is a prefix of it, so a match can never
   * start inside the first five characters of another: the first occurrence
   * after a pattern-free prefix `u` is replaced and the rest is escaped on
   * its own.
   */
  lemma {:induction false} EscapeReplacesOccurrence(u: string, v: string)
    requires PatternFree(u)
    ensures EscapeLabel(u + Pattern + v) == u + Replacement + EscapeLabel(v)
    decreases |u|
  {
    var s := u + Pattern + v;
    if u == [] {
      assert s == Pattern + v;
      assert s[..|Pattern|] == Pattern;
      assert s[|Pattern|..] == v;
    } else {
      NoMatchBeforeOccurrence(u, v);
      PatternFreeTail(u);
      EscapeReplacesOccurrence(u[1..], v);
      assert s[1..] == u[1..] + Pattern + v;
    }
  }

  /** If the escape of `t` starts with a backslash-free text `w`, so does `t`. */
  lemma {:induction false} EscapePrefix(t: string, w: string)
    requires '\\' !in w
    requires |w| <= |EscapeLabel(t)| && EscapeLabel(t)[..|w|] == w
    ensures |w| <= |t| && t[..|w|] == w
    decreases |t|
  {
    if w != [] && |t| >= |Pattern| {
      assert EscapeLabel(t)[0] == w[0] != '\\';
      assert t[..|Pattern|] != Pattern;
      var e := EscapeLabel(t[1..]);
      assert EscapeLabel(t) == [t[0]] + e;
      assert e[..|w| - 1] == w[1..];
      EscapePrefix(t[1..], w[1..]);
    }
  }

  /** Escaping never leaves the pattern behind. */
  lemma {:induction false} EscapedIsPatternFree(s: string)
    ensures PatternFree(EscapeLabel(s))
    decreases |s|
  {
    var r := EscapeLabel(s);
    if |s| < |Pattern| {
    } else if s[..|Pattern|] == Pattern {
      var e := EscapeLabel(s[|Pattern|..]);
      EscapedIsPatternFree(s[|Pattern|..]);
      forall i | 0 <= i <= |r| - |Pattern|
        ensures !OccursAt(r, i)
      {
        if i < |Replacement| {
          assert r[i] == Replacement[i] != '\\' || i == 0;
          if i == 0 { assert r[1] == '$' != Pattern[1]; }
        } else {
          assert !OccursAt(e, i - |Replacement|);
          assert r[i..i + |Pattern|] == e[i - |Replacement|..i - |Replacement| + |Pattern|];
        }
      }
    } else {
      var e := EscapeLabel(s[1..]);
      EscapedIsPatternFree(s[1..]);
      forall i | 0 <= i <= |r| - |Pattern|
        ensures !OccursAt(r, i)
      {
        if i == 0 {
          if OccursAt(r, 0) {
            assert r[..|Pattern|] == Pattern;
            assert s[0] == r[0] == Pattern[0];
            var w := Pattern[1..];
            assert e[..|w|] == w;
            EscapePrefix(s[1..], w);
            assert false;
          }
        } else {
          assert !OccursAt(e, i - 1);
          assert r[i..i + |Pattern|] == e[i - 1..i - 1 + |Pattern|];
        }
      }
    }
  }

  /** Escaping an escaped label changes nothing more. */
  lemma EscapeIdempotent(s: string)
    ensures EscapeLabel(EscapeLabel(s)) == EscapeLabel(s)
  {
    EscapedIsPatternFree(s);
    EscapeIdentity(EscapeLabel(s));
  }

  /** Two different labels that the store treats as the same key. */
  lemma EscapeNotInjective()
    ensures Pattern != Replacement
    ensures EscapeLabel(Pattern) == EscapeLabel(Replacement) == Replacement
  {
    assert Pattern[|Pattern|..] == [];
    assert PatternFree(Replacement);
    EscapeIdentity(Replacement);
  }
}
