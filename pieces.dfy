/** Python's `str.split(sep)`, `sep.join(parts)` and `str.replace(pat, rep)` for
    a non-empty separator or pattern. All three scan the text left to right and
    take non-overlapping occurrences, which these definitions follow literally. */
module Pieces {
  import opened Text

  /** Splitting `s` when the piece under construction already holds `cur`. */
  function SplitFrom(s: string, sep: string, cur: string): (r: seq<string>)
    requires sep != []
    ensures |r| >= 1
    decreases |s|
  {
    if |s| == 0 then [cur]
    else if sep <= s then [cur] + SplitFrom(s[|sep|..], sep, [])
    else SplitFrom(s[1..], sep, cur + [s[0]])
  }

  /** `s.split(sep)`: one piece more than there are occurrences of the
      separator, so never empty; `"".split(sep) == [""]`. */
  function Split(s: string, sep: string): (r: seq<string>)
    requires sep != []
    ensures |r| == Count(s, sep) + 1
  {
    SplitCount(s, sep, []);
    SplitFrom(s, sep, [])
  }

  /** `sep.join(parts)`. */
  function Join(parts: seq<string>, sep: string): string {
    if |parts| == 0 then []
    else if |parts| == 1 then parts[0]
    else parts[0] + sep + Join(parts[1..], sep)
  }

  /** `s.replace(pat, rep)`. */
  function Replace(s: string, pat: string, rep: string): string
    requires pat != []
    decreases |s|
  {
    if |s| == 0 then []
    else if pat <= s then rep + Replace(s[|pat|..], pat, rep)
    else [s[0]] + Replace(s[1..], pat, rep)
  }

  /** `s.count(pat)`: how many occurrences `Replace` substitutes. */
  function Count(s: string, pat: string): nat
    requires pat != []
    decreases |s|
  {
    if |s| == 0 then 0
    else if pat <= s then 1 + Count(s[|pat|..], pat)
    else Count(s[1..], pat)
  }

  /** A split has one piece more than the text has occurrences. */
  lemma {:induction false} SplitCount(s: string, sep: string, cur: string)
    requires sep != []
    ensures |SplitFrom(s, sep, cur)| == Count(s, sep) + 1
    decreases |s|
  {
    if |s| == 0 {
    } else if sep <= s {
      SplitCount(s[|sep|..], sep, []);
    } else {
      SplitCount(s[1..], sep, cur + [s[0]]);
    }
  }

  /** Every piece of a split is free of the (one-character) separator. */
  lemma {:induction false} SplitPiecesFree(s: string, c: char, cur: string)
    requires c !in cur
    ensures forall p :: p in SplitFrom(s, [c], cur) ==> c !in p
    decreases |s|
  {
    if |s| == 0 {
    } else if [c] <= s {
      SplitPiecesFree(s[1..], c, []);
    } else {
      assert s[0] != c;
      SplitPiecesFree(s[1..], c, cur + [s[0]]);
    }
  }

  /** Splitting runs over a stretch that cannot start a separator. */
  lemma {:induction false} SplitSkip(a: string, t: string, sep: string, cur: string)
    requires sep != []
    requires forall i :: 0 <= i < |a| ==> a[i] != sep[0]
    ensures SplitFrom(a + t, sep, cur) == SplitFrom(t, sep, cur + a)
    decreases |a|
  {
    if |a| > 0 {
      assert (a + t)[0] == a[0];
      assert !(sep <= a + t);
      assert (a + t)[1..] == a[1..] + t;
      SplitSkip(a[1..], t, sep, cur + [a[0]]);
      assert cur + [a[0]] + a[1..] == cur + a;
    } else {
      assert a + t == t && cur + a == cur;
    }
  }

  /** A text with no occurrence of the separator stays one piece. */
  lemma {:induction false} SplitNone(t: string, sep: string, cur: string)
    requires sep != []
    requires !Contains(t, sep)
    ensures SplitFrom(t, sep, cur) == [cur + t]
    decreases |t|
  {
    if |t| == 0 {
      assert cur + t == cur;
    } else {
      assert !OccursAt(t, sep, 0);
      assert !(sep <= t);
      if Contains(t[1..], sep) {
        var i :| 0 <= i <= |t[1..]| - |sep| && OccursAt(t[1..], sep, i);
        assert t[1..] == t[1..|t|];
        OccursInSlice(t, sep, 1, |t|, i);
        assert false;
      }
      SplitNone(t[1..], sep, cur + [t[0]]);
      assert cur + [t[0]] + t[1..] == cur + t;
    }
  }

  /** The reference definition of replacement: `s.replace(pat, rep)` is
      `rep.join(s.split(pat))` (the accumulator form). */
  lemma {:induction false} JoinSplitFrom(s: string, pat: string, rep: string, cur: string)
    requires pat != []
    ensures Join(SplitFrom(s, pat, cur), rep) == cur + Replace(s, pat, rep)
    decreases |s|
  {
    if |s| == 0 {
    } else if pat <= s {
      var rest := SplitFrom(s[|pat|..], pat, []);
      JoinSplitFrom(s[|pat|..], pat, rep, []);
      assert ([cur] + rest)[1..] == rest;
      assert [] + Replace(s[|pat|..], pat, rep) == Replace(s[|pat|..], pat, rep);
    } else {
      JoinSplitFrom(s[1..], pat, rep, cur + [s[0]]);
    }
  }

  /** `s.replace(pat, rep) == rep.join(s.split(pat))`. */
  lemma ReplaceIsJoinOfSplit(s: string, pat: string, rep: string)
    requires pat != []
    ensures Replace(s, pat, rep) == Join(Split(s, pat), rep)
  {
    JoinSplitFrom(s, pat, rep, []);
  }

  /** Replacing a pattern by itself changes nothing. */
  lemma {:induction false} ReplaceSelf(s: string, pat: string)
    requires pat != []
    ensures Replace(s, pat, pat) == s
    decreases |s|
  {
    if |s| == 0 {
    } else if pat <= s {
      ReplaceSelf(s[|pat|..], pat);
      assert s == pat + s[|pat|..];
    } else {
      ReplaceSelf(s[1..], pat);
      assert s == [s[0]] + s[1..];
    }
  }

  /** Joining the pieces of a split with the same separator gives back the text. */
  lemma SplitJoin(s: string, sep: string)
    requires sep != []
    ensures Join(Split(s, sep), sep) == s
  {
    ReplaceIsJoinOfSplit(s, sep, sep);
    ReplaceSelf(s, sep);
  }

  /** Splitting a join recovers the parts when no part holds the separator. */
  lemma {:induction false} JoinThenSplit(parts: seq<string>, c: char, cur: string)
    requires |parts| >= 1
    requires forall i :: 0 <= i < |parts| ==> c !in parts[i]
    ensures SplitFrom(Join(parts, [c]), [c], cur) == [cur + parts[0]] + parts[1..]
    decreases |parts|
  {
    var p := parts[0];
    if |parts| == 1 {
      SplitSkip(p, [], [c], cur);
      assert p + [] == p;
    } else {
      var rest := Join(parts[1..], [c]);
      assert Join(parts, [c]) == p + ([c] + rest);
      SplitSkip(p, [c] + rest, [c], cur);
      assert ([c] + rest)[1..] == rest;
      JoinThenSplit(parts[1..], c, []);
      assert [] + parts[1..][0] == parts[1];
      assert [parts[1]] + parts[2..] == parts[1..];
    }
  }

  /** `sep.join(parts).split(sep) == parts` for a one-character separator that
      no part contains. */
  lemma SplitOfJoin(parts: seq<string>, c: char)
    requires |parts| >= 1
    requires forall i :: 0 <= i < |parts| ==> c !in parts[i]
    ensures Split(Join(parts, [c]), [c]) == parts
  {
    JoinThenSplit(parts, c, []);
    assert [] + parts[0] == parts[0];
  }

  /** Every part with `pad` in front. */
  function PadAll(parts: seq<string>, pad: string): (r: seq<string>)
    ensures |r| == |parts|
    ensures forall i :: 0 <= i < |parts| ==> r[i] == pad + parts[i]
  {
    seq(|parts|, i requires 0 <= i < |parts| => pad + parts[i])
  }

  /** Joining with `c + pad` is joining with `c` after padding every part
      but the first. */
  lemma JoinSpaced(parts: seq<string>, c: char, pad: string)
    requires |parts| >= 1
    ensures Join(parts, [c] + pad) == Join([parts[0]] + PadAll(parts[1..], pad), [c])
  {
    var q := [parts[0]] + PadAll(parts[1..], pad);
    if |parts| > 1 {
      var rest := Join(parts[1..], [c] + pad);
      assert q[0] == parts[0] && q[1..] == PadAll(parts[1..], pad);
      assert Join(q, [c]) == parts[0] + [c] + Join(q[1..], [c]);
      JoinPadded(parts[1..], c, pad);
      assert Join(parts, [c] + pad) == parts[0] + ([c] + pad) + rest;
      Reassociate(parts[0], [c], pad, rest);
    }
  }

  lemma Reassociate(x: string, y: string, z: string, w: string)
    ensures x + (y + z) + w == x + y + (z + w)
  {
  }

  /** `pad + (c + pad).join(parts) == c.join(pad + p for p in parts)`. */
  lemma {:induction false} JoinPadded(parts: seq<string>, c: char, pad: string)
    requires |parts| >= 1
    ensures pad + Join(parts, [c] + pad) == Join(PadAll(parts, pad), [c])
    decreases |parts|
  {
    var q := PadAll(parts, pad);
    if |parts| > 1 {
      var rest := Join(parts[1..], [c] + pad);
      JoinPadded(parts[1..], c, pad);
      assert PadAll(parts[1..], pad) == q[1..];
      assert pad + (parts[0] + ([c] + pad) + rest) == (pad + parts[0]) + [c] + (pad + rest);
    }
  }

  /** A text without the pattern is left as it is. */
  lemma {:induction false} ReplaceAbsent(s: string, pat: string, rep: string)
    requires pat != []
    requires !Contains(s, pat)
    ensures Replace(s, pat, rep) == s && Count(s, pat) == 0
    decreases |s|
  {
    if |s| > 0 {
      assert !OccursAt(s, pat, 0);
      assert !(pat <= s);
      if Contains(s[1..], pat) {
        var i :| 0 <= i <= |s[1..]| - |pat| && OccursAt(s[1..], pat, i);
        assert s[1..] == s[1..|s|];
        OccursInSlice(s, pat, 1, |s|, i);
        assert false;
      }
      ReplaceAbsent(s[1..], pat, rep);
      assert s == [s[0]] + s[1..];
    }
  }

  /** Each substitution trades `|pat|` characters for `|rep|`. */
  lemma {:induction false} ReplaceLength(s: string, pat: string, rep: string)
    requires pat != []
    ensures |Replace(s, pat, rep)| + Count(s, pat) * |pat| == |s| + Count(s, pat) * |rep|
    decreases |s|
  {
    if |s| == 0 {
    } else if pat <= s {
      var c := Count(s[|pat|..], pat);
      ReplaceLength(s[|pat|..], pat, rep);
      Distribute(c, |pat|);
      Distribute(c, |rep|);
    } else {
      ReplaceLength(s[1..], pat, rep);
    }
  }

  lemma Distribute(c: nat, n: nat)
    ensures (1 + c) * n == n + c * n
  {
  }

  /** Replacement copies a stretch at none of whose positions the pattern
      occurs. */
  lemma {:induction false} ReplaceNoMatch(a: string, b: string, pat: string, rep: string)
    requires pat != []
    requires forall i :: 0 <= i < |a| ==> !OccursAt(a + b, pat, i)
    ensures Replace(a + b, pat, rep) == a + Replace(b, pat, rep)
    decreases |a|
  {
    if |a| == 0 {
      assert a + b == b;
    } else {
      var s := a + b;
      assert !OccursAt(s, pat, 0);
      assert !(pat <= s);
      assert s[1..] == a[1..] + b;
      NoMatchAfterFirst(a, b, pat);
      ReplaceNoMatch(a[1..], b, pat, rep);
      assert a + Replace(b, pat, rep) == [a[0]] + (a[1..] + Replace(b, pat, rep));
    }
  }

  /** Dropping the first character shifts every position left by one. */
  lemma NoMatchAfterFirst(a: string, b: string, pat: string)
    requires |a| > 0
    requires forall i :: 0 <= i < |a| ==> !OccursAt(a + b, pat, i)
    ensures forall i :: 0 <= i < |a[1..]| ==> !OccursAt(a[1..] + b, pat, i)
  {
    var s := a + b;
    assert s[1..] == a[1..] + b;
    forall i | 0 <= i < |a[1..]| ensures !OccursAt(a[1..] + b, pat, i) {
      assert !OccursAt(s, pat, i + 1);
      if i + |pat| <= |s| - 1 {
        assert s[1..][i..i + |pat|] == s[i + 1..i + 1 + |pat|];
      }
    }
  }

  /** A string that starts with the pattern has the replacement up front. */
  lemma ReplaceAtStart(pat: string, b: string, rep: string)
    requires pat != []
    ensures Replace(pat + b, pat, rep) == rep + Replace(b, pat, rep)
  {
    assert (pat + b)[|pat|..] == b;
  }

  /** A prefix of `a + b` longer than `a` has `b[0]` at index `|a|`. */
  lemma PrefixReachesRight(a: string, b: string, pat: string)
    requires pat <= a + b && |a| < |pat|
    ensures b != [] && pat[|a|] == b[0]
  {
    assert pat[|a|] == (a + b)[|a|];
  }

  /** Replacement distributes over a concatenation whose right part starts with
      a character the pattern does not contain, since then no occurrence can
      straddle the boundary. */
  lemma {:induction false} ReplaceConcat(a: string, b: string, pat: string, rep: string)
    requires pat != [] && b != [] && b[0] !in pat
    ensures Replace(a + b, pat, rep) == Replace(a, pat, rep) + Replace(b, pat, rep)
    decreases |a|
  {
    if |a| == 0 {
      assert a + b == b;
    } else if pat <= a + b {
      if |pat| > |a| {
        PrefixReachesRight(a, b, pat);
        assert false;
      }
      assert pat <= a;
      assert (a + b)[|pat|..] == a[|pat|..] + b;
      ReplaceConcat(a[|pat|..], b, pat, rep);
    } else {
      assert !(pat <= a);
      assert (a + b)[0] == a[0];
      assert (a + b)[1..] == a[1..] + b;
      ReplaceConcat(a[1..], b, pat, rep);
    }
  }

  /** Replacing a one-character pattern by one character rewrites exactly the
      positions that held it and keeps the length. */
  lemma {:induction false} ReplaceCharPointwise(s: string, c: char, d: char)
    ensures |Replace(s, [c], [d])| == |s|
    ensures forall i :: 0 <= i < |s| ==>
      Replace(s, [c], [d])[i] == (if s[i] == c then d else s[i])
    decreases |s|
  {
    if |s| > 0 {
      ReplaceCharPointwise(s[1..], c, d);
      var r := Replace(s, [c], [d]);
      if [c] <= s {
        assert r == [d] + Replace(s[1..], [c], [d]);
      } else {
        assert r == [s[0]] + Replace(s[1..], [c], [d]);
      }
    }
  }
}
