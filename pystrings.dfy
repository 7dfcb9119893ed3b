/**
 * The three Python string built-ins the installer relies on:
 * `str.startswith`, `str.replace` and `str.split`, for a non-empty
 * pattern, as CPython defines them (leftmost, non-overlapping matches).
 */
module PyStrings {

  /** `s.startswith(p)` */
  predicate StartsWith(s: string, p: string)
  {
    |p| <= |s| && s[..|p|] == p
  }

  /** `pat` occurs in `s` starting at index `i`. */
  predicate OccursAt(s: string, pat: string, i: nat)
  {
    i + |pat| <= |s| && s[i..i + |pat|] == pat
  }

  /** `pat in s` */
  predicate Occurs(s: string, pat: string)
  {
    exists i: nat | i <= |s| :: OccursAt(s, pat, i)
  }

  /** `s.replace(pat, rep)`: every leftmost, non-overlapping occurrence of `pat` is replaced. */
  function Replace(s: string, pat: string, rep: string): string
    requires pat != []
    decreases |s|
  {
    if |s| < |pat| then s
    else if s[..|pat|] == pat then rep + Replace(s[|pat|..], pat, rep)
    else [s[0]] + Replace(s[1..], pat, rep)
  }

  /** `s.split(sep)`: the pieces between leftmost, non-overlapping occurrences of `sep`. */
  function Split(s: string, sep: string): (parts: seq<string>)
    requires sep != []
    ensures |parts| >= 1
    decreases |s|
  {
    if |s| < |sep| then [s]
    else if s[..|sep|] == sep then [[]] + Split(s[|sep|..], sep)
    else
      var rest := Split(s[1..], sep);
      [[s[0]] + rest[0]] + rest[1..]
  }

  /** `sep.join(parts)` */
  function JoinWith(parts: seq<string>, sep: string): string
  {
    if |parts| == 0 then []
    else if |parts| == 1 then parts[0]
    else parts[0] + sep + JoinWith(parts[1..], sep)
  }

  lemma {:induction false} JoinWithConsChar(c: char, parts: seq<string>, sep: string)
    requires |parts| >= 1
    ensures JoinWith([[c] + parts[0]] + parts[1..], sep) == [c] + JoinWith(parts, sep)
  {
    var ps := [[c] + parts[0]] + parts[1..];
    assert ps[1..] == parts[1..];
  }

  /** Python's identity `s.replace(a, b) == b.join(s.split(a))`. */
  lemma {:induction false} ReplaceIsSplitThenJoin(s: string, pat: string, rep: string)
    requires pat != []
    ensures Replace(s, pat, rep) == JoinWith(Split(s, pat), rep)
    decreases |s|
  {
    if |s| < |pat| {
    } else if s[..|pat|] == pat {
      ReplaceIsSplitThenJoin(s[|pat|..], pat, rep);
      var tail := Split(s[|pat|..], pat);
      assert ([[]] + tail)[1..] == tail;
    } else {
      ReplaceIsSplitThenJoin(s[1..], pat, rep);
      JoinWithConsChar(s[0], Split(s[1..], pat), rep);
    }
  }

  lemma {:induction false} ReplaceBySelf(s: string, pat: string)
    requires pat != []
    ensures Replace(s, pat, pat) == s
    decreases |s|
  {
    if |s| < |pat| {
    } else if s[..|pat|] == pat {
      ReplaceBySelf(s[|pat|..], pat);
      assert s == s[..|pat|] + s[|pat|..];
    } else {
      ReplaceBySelf(s[1..], pat);
      assert s == [s[0]] + s[1..];
    }
  }

  /** Joining the pieces of a split with the same separator gives the string back. */
  lemma SplitThenJoinRoundTrip(s: string, sep: string)
    requires sep != []
    ensures JoinWith(Split(s, sep), sep) == s
  {
    ReplaceIsSplitThenJoin(s, sep, sep);
    ReplaceBySelf(s, sep);
  }

  /** A string in which `pat` does not occur is left unchanged by `replace`. */
  lemma {:induction false} ReplaceWithoutOccurrence(s: string, pat: string, rep: string)
    requires pat != []
    requires !Occurs(s, pat)
    ensures Replace(s, pat, rep) == s
    decreases |s|
  {
    if |s| < |pat| {
    } else if s[..|pat|] == pat {
      assert OccursAt(s, pat, 0);
    } else {
      if Occurs(s[1..], pat) {
        var i: nat :| i <= |s[1..]| && OccursAt(s[1..], pat, i);
        assert i + |pat| <= |s| - 1;
        assert s[1..][i..i + |pat|] == s[i + 1..i + 1 + |pat|];
        assert OccursAt(s, pat, i + 1);
      }
      ReplaceWithoutOccurrence(s[1..], pat, rep);
      assert s == [s[0]] + s[1..];
    }
  }

  /** An occurrence at the very start is replaced, and scanning resumes after it. */
  lemma ReplaceLeading(pat: string, s: string, rep: string)
    requires pat != []
    ensures Replace(pat + s, pat, rep) == rep + Replace(s, pat, rep)
  {
    assert (pat + s)[..|pat|] == pat;
    assert (pat + s)[|pat|..] == s;
  }

  /** A leading character that does not start `pat` is kept, and scanning moves one on. */
  lemma ReplaceLeadingChar(c: char, s: string, pat: string, rep: string)
    requires pat != []
    requires c != pat[0]
    ensures Replace([c] + s, pat, rep) == [c] + Replace(s, pat, rep)
  {
    var t := [c] + s;
    if |t| >= |pat| {
      assert t[..|pat|][0] == c;
    }
    assert t[1..] == s;
    if |t| < |pat| {
      ReplaceWithoutOccurrence(s, pat, rep);
    }
  }

  /** A match at index `i + 1` of `[c] + s` is a match at index `i` of `s`. */
  lemma OccursAtShift(c: char, s: string, pat: string, i: nat)
    ensures OccursAt([c] + s, pat, i + 1) <==> OccursAt(s, pat, i)
  {
    if i + |pat| <= |s| {
      assert ([c] + s)[i + 1..i + 1 + |pat|] == s[i..i + |pat|];
    }
  }

  /** Text at which no match of the pattern starts is copied, and scanning resumes after it. */
  lemma {:induction false} ReplaceSkipsUnmatched(u: string, s: string, pat: string, rep: string)
    requires pat != []
    requires forall i: nat :: i < |u| ==> !OccursAt(u + s, pat, i)
    ensures Replace(u + s, pat, rep) == u + Replace(s, pat, rep)
    decreases |u|
  {
    if u == [] {
      assert u + s == s;
    } else {
      var t := u[1..] + s;
      assert u + s == [u[0]] + t;
      forall i: nat | i < |u[1..]|
        ensures !OccursAt(t, pat, i)
      {
        OccursAtShift(u[0], t, pat, i);
      }
      ReplaceSkipsUnmatched(u[1..], s, pat, rep);
      if |u + s| >= |pat| {
        assert !OccursAt(u + s, pat, 0);
      }
      assert [u[0]] + (u[1..] + Replace(s, pat, rep)) == u + Replace(s, pat, rep);
    }
  }

  /** Text that never contains the pattern's first character is copied, and scanning resumes after it. */
  lemma ReplaceKeepsText(a: string, s: string, pat: string, rep: string)
    requires pat != []
    requires pat[0] !in a
    ensures Replace(a + s, pat, rep) == a + Replace(s, pat, rep)
  {
    forall i: nat | i < |a|
      ensures !OccursAt(a + s, pat, i)
    {
      assert a[i] in a;
      if i + |pat| <= |a + s| {
        assert (a + s)[i..i + |pat|][0] == a[i];
      }
    }
    ReplaceSkipsUnmatched(a, s, pat, rep);
  }

  /** No piece of a split on a single character contains that character. */
  lemma {:induction false} SplitPiecesLackSeparator(s: string, c: char)
    ensures forall k :: 0 <= k < |Split(s, [c])| ==> c !in Split(s, [c])[k]
    decreases |s|
  {
    if |s| < 1 {
    } else if s[..1] == [c] {
      SplitPiecesLackSeparator(s[1..], c);
    } else {
      SplitPiecesLackSeparator(s[1..], c);
      assert s[0] != c by { assert s[..1][0] == s[0]; }
    }
  }

  /** Splitting on a character gives at least two pieces exactly when the character occurs. */
  lemma {:induction false} SplitHasTwoPiecesIff(s: string, c: char)
    ensures |Split(s, [c])| >= 2 <==> c in s
    decreases |s|
  {
    if |s| < 1 {
    } else if s[..1] == [c] {
      assert s[0] == c by { assert s[..1][0] == s[0]; }
    } else {
      SplitHasTwoPiecesIff(s[1..], c);
      assert s[0] != c by { assert s[..1][0] == s[0]; }
      assert s == [s[0]] + s[1..];
    }
  }

  /** A string without the separator is its own only piece. */
  lemma {:induction false} SplitWithoutSeparator(s: string, c: char)
    requires c !in s
    ensures Split(s, [c]) == [s]
    decreases |s|
  {
    if |s| >= 1 {
      assert s[..1][0] == s[0];
      SplitWithoutSeparator(s[1..], c);
      assert s == [s[0]] + s[1..];
    }
  }

  /** The first piece is the text before the first occurrence of the separator. */
  lemma {:induction false} SplitFirstPiece(a: string, c: char, b: string)
    requires c !in a
    ensures Split(a + [c] + b, [c]) == [a] + Split(b, [c])
    decreases |a|
  {
    var s := a + [c] + b;
    if a == [] {
      assert s[..1] == [c];
      assert s[1..] == b;
    } else {
      assert s[..1][0] == a[0];
      assert s[1..] == a[1..] + [c] + b;
      SplitFirstPiece(a[1..], c, b);
      assert [a[0]] + a[1..] == a;
    }
  }

  /**
   * With at least two pieces, the string reads piece 0, the separator, piece 1,
   * and then either ends or continues with the separator.
   */
  lemma SplitShape(s: string, c: char)
    requires |Split(s, [c])| >= 2
    ensures var parts := Split(s, [c]);
            var n := |parts[0]| + 1 + |parts[1]|;
            StartsWith(s, parts[0] + [c] + parts[1]) && (|s| == n || (|s| > n && s[n] == c))
  {
    var parts := Split(s, [c]);
    SplitThenJoinRoundTrip(s, [c]);
    var head := parts[0] + [c] + parts[1];
    assert parts[1..][0] == parts[1];
    if |parts| == 2 {
      assert s == head;
    } else {
      assert parts[1..][1..] == parts[2..];
      var more := JoinWith(parts[2..], [c]);
      assert s == head + [c] + more;
      assert s[..|head|] == head;
    }
  }
}
