/**
 * Python string vocabulary used by the importer: substring occurrence and
 * `str.replace(old, new)`, which rewrites every match of `old` scanning left
 * to right, never lets two matches overlap and never rescans the text it
 * has just produced.
 */
module PyText {

  /** `p` occurs in `s` starting at index `i`. */
  predicate OccursAt(s: string, p: string, i: int)
  {
    0 <= i && i + |p| <= |s| && s[i..i + |p|] == p
  }

  /** Python's `p in s` on two strings. */
  predicate Contains(s: string, p: string)
  {
    exists i :: 0 <= i <= |s| - |p| && OccursAt(s, p, i)
  }

  /** Python's `s.startswith(p)`. */
  predicate StartsWith(s: string, p: string)
  {
    |p| <= |s| && s[..|p|] == p
  }

  /** Python's `s.endswith(p)`. */
  predicate EndsWith(s: string, p: string)
  {
    |p| <= |s| && s[|s| - |p|..] == p
  }

  /** Unfolding `Contains` one character at a time, the way `ReplaceAll` scans. */
  lemma ContainsUnfold(s: string, p: string)
    requires s != []
    ensures Contains(s, p) <==> StartsWith(s, p) || Contains(s[1..], p)
  {
    if Contains(s[1..], p) {
      var i :| 0 <= i <= |s[1..]| - |p| && OccursAt(s[1..], p, i);
      assert s[1..][i..i + |p|] == s[i + 1..i + 1 + |p|];
      assert OccursAt(s, p, i + 1);
    }
    if Contains(s, p) && !StartsWith(s, p) {
      var i :| 0 <= i <= |s| - |p| && OccursAt(s, p, i);
      assert i != 0;
      assert s[1..][i - 1..i - 1 + |p|] == s[i..i + |p|];
      assert OccursAt(s[1..], p, i - 1);
    }
    if StartsWith(s, p) {
      assert OccursAt(s, p, 0);
    }
  }

  /**
   * `s.replace(pat, rep)`: at each position, a match of `pat` is replaced
   * and scanning resumes after it; otherwise one character is kept.
   */
  function ReplaceAll(s: string, pat: string, rep: string): (r: string)
    ensures pat != [] && |rep| <= |pat| ==> |r| <= |s|
    decreases |s|
  {
    if pat == [] then InsertEverywhere(s, rep)
    else if |s| < |pat| then s
    else if s[..|pat|] == pat then rep + ReplaceAll(s[|pat|..], pat, rep)
    else [s[0]] + ReplaceAll(s[1..], pat, rep)
  }

  /** `s.replace("", rep)`: the empty pattern matches before every character and at the end. */
  function InsertEverywhere(s: string, rep: string): (r: string)
    ensures |r| == |s| + (|s| + 1) * |rep|
    decreases |s|
  {
    if s == [] then rep else rep + [s[0]] + InsertEverywhere(s[1..], rep)
  }

  /** Where `InsertEverywhere` puts its `i`-th copy of the replacement: after `i` copies and `i` characters. */
  function Slot(i: nat, rep: string): nat
  {
    if i == 0 then 0 else Slot(i - 1, rep) + |rep| + 1
  }

  /**
   * `InsertEverywhere` puts the replacement before each character of `s`:
   * at `Slot(i, rep)` stand a copy of `rep` and then `s[i]`.
   */
  lemma {:induction false} InsertedAt(s: string, rep: string, i: nat)
    requires i < |s|
    ensures Slot(i, rep) + |rep| < |InsertEverywhere(s, rep)|
    ensures InsertEverywhere(s, rep)[Slot(i, rep)..Slot(i, rep) + |rep| + 1] == rep + [s[i]]
    decreases i
  {
    var r' := InsertEverywhere(s[1..], rep);
    if i > 0 {
      InsertedAt(s[1..], rep, i - 1);
      PastHead(rep, s[0], r', Slot(i - 1, rep), |rep| + 1);
      assert s[1..][i - 1] == s[i];
    } else {
      assert (rep + [s[0]] + r')[..|rep| + 1] == rep + [s[0]];
    }
  }

  /** The last copy of the replacement ends the output. */
  lemma {:induction false} InsertedLast(s: string, rep: string)
    ensures Slot(|s|, rep) + |rep| == |InsertEverywhere(s, rep)|
    ensures InsertEverywhere(s, rep)[Slot(|s|, rep)..] == rep
    decreases |s|
  {
    if s != [] {
      var r' := InsertEverywhere(s[1..], rep);
      InsertedLast(s[1..], rep);
      assert (rep + [s[0]] + r')[|rep| + 1 + Slot(|s| - 1, rep)..] == r'[Slot(|s| - 1, rep)..];
    }
  }

  /** Indexing into `rep + [c] + t` beyond its first `|rep| + 1` characters. */
  lemma PastHead(rep: string, c: char, t: string, k: int, n: int)
    requires 0 <= k && 0 <= n && k + n <= |t|
    ensures (rep + [c] + t)[|rep| + 1 + k..|rep| + 1 + k + n] == t[k..k + n]
  {
  }

  /** One scanning step at a match. */
  lemma ReplaceAllHit(s: string, pat: string, rep: string)
    requires pat != [] && StartsWith(s, pat)
    ensures ReplaceAll(s, pat, rep) == rep + ReplaceAll(s[|pat|..], pat, rep)
  {
  }

  /** One scanning step where no match starts. */
  lemma ReplaceAllMiss(s: string, pat: string, rep: string)
    requires pat != [] && s != [] && !StartsWith(s, pat)
    ensures ReplaceAll(s, pat, rep) == [s[0]] + ReplaceAll(s[1..], pat, rep)
  {
    if |s| < |pat| {
      assert ReplaceAll(s[1..], pat, rep) == s[1..];
      assert s == [s[0]] + s[1..];
    }
  }

  /** A text in which the pattern does not occur is returned unchanged. */
  lemma {:induction false} ReplaceAllNoMatch(s: string, pat: string, rep: string)
    requires pat != []
    requires !Contains(s, pat)
    ensures ReplaceAll(s, pat, rep) == s
    decreases |s|
  {
    if s != [] {
      ContainsUnfold(s, pat);
      ReplaceAllNoMatch(s[1..], pat, rep);
      assert [s[0]] + s[1..] == s;
    }
  }

  /**
   * The first match is replaced and scanning resumes right after it: when
   * no match starts inside `a`, the text before `pat` is kept verbatim.
   */
  lemma {:induction false} ReplaceAllFirstMatch(a: string, pat: string, b: string, rep: string)
    requires pat != []
    requires !Contains(a + pat[..|pat| - 1], pat)
    ensures ReplaceAll(a + pat + b, pat, rep) == a + rep + ReplaceAll(b, pat, rep)
    decreases |a|
  {
    var s := a + pat + b;
    if a == [] {
      assert s == pat + b && s[..|pat|] == pat && s[|pat|..] == b;
      ReplaceAllHit(s, pat, rep);
    } else {
      var a' := a[1..];
      var r := ReplaceAll(b, pat, rep);
      NoMatchAtFront(a, pat, b);
      calc {
        ReplaceAll(s, pat, rep);
        { ReplaceAllMiss(s, pat, rep); }
        [s[0]] + ReplaceAll(s[1..], pat, rep);
        { assert s[0] == a[0] && s[1..] == a' + pat + b; }
        [a[0]] + ReplaceAll(a' + pat + b, pat, rep);
        { ReplaceAllFirstMatch(a', pat, b, rep); }
        [a[0]] + (a' + rep + r);
        { assert a == [a[0]] + a'; }
        a + rep + r;
      }
    }
  }

  /** The facts `ReplaceAllFirstMatch` needs to step over the first character of `a`. */
  lemma NoMatchAtFront(a: string, pat: string, b: string)
    requires pat != [] && a != []
    requires !Contains(a + pat[..|pat| - 1], pat)
    ensures !StartsWith(a + pat + b, pat)
    ensures !Contains(a[1..] + pat[..|pat| - 1], pat)
  {
    var s := a + pat + b;
    var u := a + pat[..|pat| - 1];
    assert !OccursAt(u, pat, 0);
    assert s[..|pat|] == u[..|pat|];
    ContainsUnfold(u, pat);
    assert u[1..] == a[1..] + pat[..|pat| - 1];
  }

  /** No match can start on a character different from the pattern's first one. */
  lemma {:induction false} ReplaceAllSkipsPrefix(x: string, t: string, pat: string, rep: string)
    requires pat != []
    requires pat[0] !in x
    ensures ReplaceAll(x + t, pat, rep) == x + ReplaceAll(t, pat, rep)
    decreases |x|
  {
    if x == [] {
      assert x + t == t;
    } else {
      var s := x + t;
      assert s[0] == x[0];
      assert !StartsWith(s, pat);
      assert ReplaceAll(s, pat, rep) == [s[0]] + ReplaceAll(s[1..], pat, rep);
      assert s[1..] == x[1..] + t;
      ReplaceAllSkipsPrefix(x[1..], t, pat, rep);
      var r := ReplaceAll(t, pat, rep);
      assert ReplaceAll(s[1..], pat, rep) == x[1..] + r;
      assert [x[0]] + (x[1..] + r) == x + r;
    }
  }

  /**
   * A pattern whose first character occurs nowhere else in it cannot overlap
   * itself, so appending all of it but its last character to a text free of
   * it creates no match.
   */
  lemma NoMatchBeforeTail(x: string, pat: string)
    requires pat != []
    requires pat[0] !in pat[1..]
    requires !Contains(x, pat)
    ensures !Contains(x + pat[..|pat| - 1], pat)
  {
    var u := x + pat[..|pat| - 1];
    forall i | 0 <= i <= |u| - |pat|
      ensures !OccursAt(u, pat, i)
    {
      if i + |pat| <= |x| {
        assert u[i..i + |pat|] == x[i..i + |pat|];
        assert !OccursAt(x, pat, i);
      } else {
        var d := |x| - i;
        assert u[i..i + |pat|][d] == u[|x|] == pat[0];
        assert pat[1..][d - 1] == pat[d];
      }
    }
  }

  /** Removing a self-non-overlapping pattern that ends the text, and occurs nowhere else. */
  lemma ReplaceAllTrailing(x: string, pat: string, rep: string)
    requires pat != []
    requires pat[0] !in pat[1..]
    requires !Contains(x, pat)
    ensures ReplaceAll(x + pat, pat, rep) == x + rep
  {
    NoMatchBeforeTail(x, pat);
    ReplaceAllFirstMatch(x, pat, [], rep);
    assert x + pat + [] == x + pat;
    assert ReplaceAll([], pat, rep) == [];
  }

  /**
   * Text before a trailing match that contains no match, itself preceded
   * by characters that cannot start one, comes out unchanged.
   */
  lemma RemoveTrailing(x: string, y: string, pat: string)
    requires pat != [] && pat[0] !in pat[1..]
    requires pat[0] !in x
    requires !Contains(y, pat)
    ensures ReplaceAll(x + y + pat, pat, "") == x + y
  {
    calc {
      ReplaceAll(x + y + pat, pat, "");
      { assert x + y + pat == x + (y + pat); }
      ReplaceAll(x + (y + pat), pat, "");
      { ReplaceAllSkipsPrefix(x, y + pat, pat, ""); }
      x + ReplaceAll(y + pat, pat, "");
      { ReplaceAllTrailing(y, pat, ""); }
      x + (y + "");
      { assert y + "" == y; }
      x + y;
    }
  }

  /** A match right after `x` and another at the end are both removed. */
  lemma RemoveTwoMatches(x: string, y: string, pat: string)
    requires pat != [] && pat[0] !in pat[1..]
    requires pat[0] !in x
    requires !Contains(y, pat)
    ensures ReplaceAll(x + pat + y + pat, pat, "") == x + y
  {
    var t := y + pat;
    calc {
      ReplaceAll(x + pat + y + pat, pat, "");
      { assert x + pat + y + pat == x + (pat + t); }
      ReplaceAll(x + (pat + t), pat, "");
      { ReplaceAllSkipsPrefix(x, pat + t, pat, ""); }
      x + ReplaceAll(pat + t, pat, "");
      { assert (pat + t)[..|pat|] == pat && (pat + t)[|pat|..] == t;
        ReplaceAllHit(pat + t, pat, ""); }
      x + ("" + ReplaceAll(t, pat, ""));
      { ReplaceAllTrailing(y, pat, ""); }
      x + ("" + (y + ""));
      { assert "" + (y + "") == y; }
      x + y;
    }
  }

  /** A text without the pattern's first character does not contain it. */
  lemma AbsentWithoutHead(s: string, p: string)
    requires p != [] && p[0] !in s
    ensures !Contains(s, p)
  {
    forall i | 0 <= i <= |s| - |p|
      ensures !OccursAt(s, p, i)
    {
      assert s[i..i + |p|][0] == s[i];
    }
  }

  /** A text too short to reach a match from any occurrence of the pattern's first character. */
  lemma AbsentWhenHeadAbsent(s: string, p: string)
    requires p != []
    requires |s| < |p| || p[0] !in s[..|s| - |p| + 1]
    ensures !Contains(s, p)
  {
  }
}
