/**
 The three Python string operations the layout resolver relies on, with
 Python's semantics: substring membership (`p in s`), `str.replace` (every
 non-overlapping occurrence, scanning left to right) and the head of
 `s.rsplit(sep, 1)` (everything before the last occurrence of `sep`).
 */
module Strings {

  import opened Types

  /** `p` occurs in `s` starting at index `i`. */
  predicate OccursAt(s: string, p: string, i: int) {
    0 <= i && i + |p| <= |s| && s[i..i + |p|] == p
  }

  lemma OccursAtTail(s: string, p: string)
    requires |s| > 0
    ensures forall i {:trigger OccursAt(s[1..], p, i)} :: 0 <= i ==> (OccursAt(s[1..], p, i) <==> OccursAt(s, p, i + 1))
  {
    forall i | 0 <= i && (OccursAt(s[1..], p, i) || OccursAt(s, p, i + 1))
      ensures OccursAt(s[1..], p, i) <==> OccursAt(s, p, i + 1)
    {
      if 0 <= i && i + 1 + |p| <= |s| {
        assert s[1..][i..i + |p|] == s[i + 1..i + 1 + |p|];
      }
    }
  }

  /** Python's `p in s`. */
  function Contains(s: string, p: string): bool
    decreases |s|
  {
    if |s| < |p| then false
    else if s[..|p|] == p then true
    else Contains(s[1..], p)
  }

  /** `p in s` holds exactly when `p` occurs at some index of `s`. */
  lemma {:induction false} ContainsSpec(s: string, p: string)
    ensures Contains(s, p) <==> exists i :: OccursAt(s, p, i)
    decreases |s|
  {
    if |s| < |p| {
    } else if s[..|p|] == p {
      assert OccursAt(s, p, 0);
    } else {
      ContainsSpec(s[1..], p);
      OccursAtTail(s, p);
      assert !OccursAt(s, p, 0);
      if Contains(s[1..], p) {
        var i :| OccursAt(s[1..], p, i);
        assert OccursAt(s, p, i + 1);
      } else {
        forall i | 1 <= i ensures !OccursAt(s, p, i) {
          assert !OccursAt(s[1..], p, i - 1);
        }
      }
    }
  }

  /** Python's `s.replace(p, r)` for a non-empty pattern `p`. */
  function Replace(s: string, p: string, r: string): string
    requires |p| > 0
    decreases |s|
  {
    if |s| < |p| then s
    else if s[..|p|] == p then r + Replace(s[|p|..], p, r)
    else [s[0]] + Replace(s[1..], p, r)
  }

  /** Replacing a pattern that does not occur leaves the string as it is. */
  lemma {:induction false} ReplaceAbsent(s: string, p: string, r: string)
    requires |p| > 0 && !Contains(s, p)
    ensures Replace(s, p, r) == s
    decreases |s|
  {
    if |s| >= |p| {
      assert s[..|p|] != p;
      ReplaceAbsent(s[1..], p, r);
    }
  }

  /** Index of the last occurrence of `p` in `s` (Python's `s.rfind(p)`), or None. */
  function LastIndex(s: string, p: string): Option<nat>
    decreases |s|
  {
    if |s| < |p| then None
    else if s[|s| - |p|..] == p then Some(|s| - |p|)
    else LastIndex(s[..|s| - 1], p)
  }

  /** `rfind` finds an occurrence after which none follows, and finds none only when there is none. */
  lemma {:induction false} LastIndexSpec(s: string, p: string)
    ensures var k := LastIndex(s, p);
      && (k.Some? ==> OccursAt(s, p, k.value) && forall j :: k.value < j ==> !OccursAt(s, p, j))
      && (k.None? ==> forall j :: !OccursAt(s, p, j))
    decreases |s|
  {
    if |s| < |p| {
    } else if s[|s| - |p|..] == p {
      assert OccursAt(s, p, |s| - |p|);
    } else {
      var s' := s[..|s| - 1];
      LastIndexSpec(s', p);
      assert !OccursAt(s, p, |s| - |p|);
      forall j | OccursAt(s, p, j) ensures OccursAt(s', p, j) {
        assert s'[j..j + |p|] == s[j..j + |p|];
      }
      forall j | OccursAt(s', p, j) ensures OccursAt(s, p, j) {
        assert s'[j..j + |p|] == s[j..j + |p|];
      }
    }
  }

  /** Python's `s.rsplit(sep, 1)[0]`: `s` up to its last `sep`, or all of `s`. */
  function RSplitHead(s: string, sep: string): string
  {
    match LastIndex(s, sep)
    case None => s
    case Some(k) => LastIndexSpec(s, sep); s[..k]
  }

  /**
   The head of `rsplit` is a prefix of the string; when the separator occurs,
   it follows the head immediately and occurs nowhere after that; otherwise
   the head is the whole string.
   */
  lemma RSplitHeadSpec(s: string, sep: string)
    ensures var h := RSplitHead(s, sep);
      && h <= s
      && (!Contains(s, sep) ==> h == s)
      && (Contains(s, sep) ==> OccursAt(s, sep, |h|) && forall j :: |h| < j ==> !OccursAt(s, sep, j))
  {
    LastIndexSpec(s, sep);
    ContainsSpec(s, sep);
  }

  /** No occurrence of `p` in `u + v` starts inside `u` and ends inside `v`. */
  predicate NoStraddle(u: string, v: string, p: string) {
    forall j :: j < |u| < j + |p| ==> !OccursAt(u + v, p, j)
  }

  /** A first character of `v` that `p` has only at its head rules out a straddle. */
  lemma NoStraddleByFirst(u: string, v: string, p: string)
    requires |v| > 0 && |p| > 0 && v[0] !in p[1..]
    ensures NoStraddle(u, v, p)
  {
    forall j | j < |u| < j + |p| ensures !OccursAt(u + v, p, j) {
      if 0 <= j && j + |p| <= |u + v| {
        assert (u + v)[j..j + |p|][|u| - j] == v[0];
        assert p[|u| - j] == p[1..][|u| - j - 1];
      }
    }
  }

  /** A last character of `u` that `p` has only at its tail rules out a straddle. */
  lemma NoStraddleByLast(u: string, v: string, p: string)
    requires |u| > 0 && |p| > 0 && u[|u| - 1] !in p[..|p| - 1]
    ensures NoStraddle(u, v, p)
  {
    forall j | j < |u| < j + |p| ensures !OccursAt(u + v, p, j) {
      if 0 <= j && j + |p| <= |u + v| {
        assert (u + v)[j..j + |p|][|u| - 1 - j] == u[|u| - 1];
        assert p[|u| - 1 - j] == p[..|p| - 1][|u| - 1 - j];
      }
    }
  }

  /**
   A straddling occurrence of `p` leaves at least `|p| - |v|` of its characters
   in `u`; when those begin with a `q` that `u` lacks, there is none.
   */
  lemma NoStraddleByHead(u: string, v: string, p: string, q: string)
    requires |q| + |v| <= |p| && p[..|q|] == q && !Contains(u, q)
    ensures NoStraddle(u, v, p)
  {
    ContainsSpec(u, q);
    forall j | j < |u| < j + |p| ensures !OccursAt(u + v, p, j) {
      if 0 <= j && j + |p| <= |u + v| {
        assert u[j..j + |q|] == (u + v)[j..j + |p|][..|q|];
        assert !OccursAt(u, q, j);
      }
    }
  }

  /** Cutting a prefix off the left side keeps the seam free of straddles. */
  lemma NoStraddleDrop(u: string, v: string, p: string, n: nat)
    requires NoStraddle(u, v, p) && n <= |u|
    ensures NoStraddle(u[n..], v, p)
  {
    assert u[n..] + v == (u + v)[n..];
    forall j | j < |u[n..]| < j + |p| ensures !OccursAt(u[n..] + v, p, j) {
      if 0 <= j && j + |p| <= |u[n..] + v| {
        assert (u[n..] + v)[j..j + |p|] == (u + v)[j + n..j + n + |p|];
        assert !OccursAt(u + v, p, j + n);
      }
    }
  }

  /** A character of `p` that `s` lacks rules out every occurrence. */
  lemma NotContainsByChar(s: string, p: string, k: nat)
    requires k < |p| && p[k] !in s
    ensures !Contains(s, p)
  {
    forall j | 0 <= j && j + |p| <= |s| ensures !OccursAt(s, p, j) {
      assert s[j..j + |p|][k] == s[j + k];
    }
    ContainsSpec(s, p);
  }

  /** Occurrences in a concatenation come from one side or straddle the seam. */
  lemma NotContainsAppend(u: string, v: string, p: string)
    requires !Contains(u, p) && !Contains(v, p) && NoStraddle(u, v, p)
    ensures !Contains(u + v, p)
  {
    ContainsSpec(u, p);
    ContainsSpec(v, p);
    forall j | 0 <= j && j + |p| <= |u + v| ensures !OccursAt(u + v, p, j) {
      if j + |p| <= |u| {
        assert (u + v)[j..j + |p|] == u[j..j + |p|];
        assert !OccursAt(u, p, j);
      } else if |u| <= j {
        assert (u + v)[j..j + |p|] == v[j - |u|..j - |u| + |p|];
        assert !OccursAt(v, p, j - |u|);
      }
    }
    ContainsSpec(u + v, p);
  }

  /** A string holding `p` holds every substring of `p`. */
  lemma ContainsPart(s: string, p: string, q: string, k: nat)
    requires Contains(s, p) && OccursAt(p, q, k)
    ensures Contains(s, q)
  {
    ContainsSpec(s, p);
    ContainsSpec(s, q);
    var j :| OccursAt(s, p, j);
    assert s[j..j + |p|] == p;
    forall i | 0 <= i < |q| ensures s[j + k + i] == q[i] {
      assert s[j..j + |p|][k + i] == s[j + k + i];
      assert p[k..k + |q|][i] == p[k + i];
    }
    assert OccursAt(s, q, j + k);
  }

  /** A pattern longer than the string does not occur in it. */
  lemma NotContainsByLength(s: string, p: string)
    requires |s| < |p|
    ensures !Contains(s, p)
  {
  }

  /**
   `str.replace` distributes over a concatenation whose seam no occurrence
   straddles: the left-to-right scan then reaches the seam exactly.
   */
  lemma {:induction false} ReplaceAppend(u: string, v: string, p: string, r: string)
    requires |p| > 0 && NoStraddle(u, v, p)
    ensures Replace(u + v, p, r) == Replace(u, p, r) + Replace(v, p, r)
    decreases |u|
  {
    if u == [] {
      assert u + v == v;
    } else if |u + v| < |p| {
    } else if (u + v)[..|p|] == p {
      ReplaceAppendAtMatch(u, v, p, r);
    } else {
      ReplaceAppendAtCopy(u, v, p, r);
    }
  }

  lemma {:induction false} ReplaceAppendAtMatch(u: string, v: string, p: string, r: string)
    requires |p| > 0 && NoStraddle(u, v, p) && |u| > 0
    requires |p| <= |u + v| && (u + v)[..|p|] == p
    ensures Replace(u + v, p, r) == Replace(u, p, r) + Replace(v, p, r)
    decreases |u|, 0
  {
    assert OccursAt(u + v, p, 0);
    assert |p| <= |u|;
    assert u[..|p|] == p;
    assert (u + v)[|p|..] == u[|p|..] + v;
    NoStraddleDrop(u, v, p, |p|);
    ReplaceAppend(u[|p|..], v, p, r);
  }

  lemma {:induction false} ReplaceAppendAtCopy(u: string, v: string, p: string, r: string)
    requires |p| > 0 && NoStraddle(u, v, p) && |u| > 0
    requires |p| <= |u + v| && (u + v)[..|p|] != p
    ensures Replace(u + v, p, r) == Replace(u, p, r) + Replace(v, p, r)
    decreases |u|, 0
  {
    var w := u + v;
    assert w[0] == u[0];
    assert w[1..] == u[1..] + v;
    if |p| <= |u| {
      assert u[..|p|] == w[..|p|];
    }
    assert !OccursAt(u, p, 0);
    ReplaceCopyStep(u, p, r);
    ReplaceCopyStep(w, p, r);
    NoStraddleDrop(u, v, p, 1);
    ReplaceAppend(u[1..], v, p, r);
  }

  /** Where `p` does not start the string, `str.replace` copies the first character. */
  lemma ReplaceCopyStep(s: string, p: string, r: string)
    requires |p| > 0 && |s| > 0 && !OccursAt(s, p, 0)
    ensures Replace(s, p, r) == [s[0]] + Replace(s[1..], p, r)
  {
    if |s| < |p| {
      assert Replace(s[1..], p, r) == s[1..];
      assert s == [s[0]] + s[1..];
    }
  }

  /** A string holds every infix written into it. */
  lemma ContainsInfix(u: string, p: string, v: string)
    ensures Contains(u + p + v, p)
  {
    assert (u + p + v)[|u|..|u| + |p|] == p;
    assert OccursAt(u + p + v, p, |u|);
    ContainsSpec(u + p + v, p);
  }
}
