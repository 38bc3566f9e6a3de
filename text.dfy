/** Character- and string-level operations of Python's `str` that the scanner
    relies on: whitespace stripping, ASCII lower-casing, substring search. */
module Text {

  /** Python's `str.isspace` for one character, on its code point: the ASCII
      controls 0x09-0x0D and 0x1C-0x1F, the space, and the Unicode separators
      Python counts as whitespace. */
  predicate IsSpace(c: char) {
    var n := c as int;
    || n == 0x20
    || (0x09 <= n <= 0x0D)
    || (0x1C <= n <= 0x1F)
    || n == 0x85 || n == 0xA0 || n == 0x1680
    || (0x2000 <= n <= 0x200A)
    || n == 0x2028 || n == 0x2029 || n == 0x202F
    || n == 0x205F || n == 0x3000
  }

  /** A string with no whitespace at either end, as `str.strip()` leaves it. */
  predicate IsStripped(s: string) {
    s == [] || (!IsSpace(s[0]) && !IsSpace(s[|s| - 1]))
  }

  /** `str.lstrip()`: drops the leading whitespace (see `StripLeftSpaces`)
      and stops at the first other character. */
  function StripLeft(s: string): (r: string)
    ensures |r| <= |s| && r == s[|s| - |r|..]
    ensures r == [] || !IsSpace(r[0])
    decreases |s|
  {
    if |s| > 0 && IsSpace(s[0]) then StripLeft(s[1..]) else s
  }

  /** `str.rstrip()`: drops the trailing whitespace (see `StripRightSpaces`)
      and stops at the last other character. */
  function StripRight(s: string): (r: string)
    ensures |r| <= |s| && r == s[..|r|]
    ensures r == [] || !IsSpace(r[|r| - 1])
    decreases |s|
  {
    if |s| > 0 && IsSpace(s[|s| - 1]) then StripRight(s[..|s| - 1]) else s
  }

  /** Number of whitespace characters `Strip` removes from the front. */
  function Lead(s: string): nat {
    |s| - |StripLeft(s)|
  }

  /** Everything `lstrip` removes is whitespace. */
  lemma {:induction false} StripLeftSpaces(s: string)
    ensures forall i :: 0 <= i < Lead(s) ==> IsSpace(s[i])
    decreases |s|
  {
    if |s| > 0 && IsSpace(s[0]) {
      var t := s[1..];
      StripLeftSpaces(t);
      assert StripLeft(s) == StripLeft(t);
      forall i | 0 <= i < Lead(s) ensures IsSpace(s[i]) {
        if i > 0 {
          assert s[i] == t[i - 1];
        }
      }
    }
  }

  /** Everything `rstrip` removes is whitespace. */
  lemma {:induction false} StripRightSpaces(s: string)
    ensures forall i :: |StripRight(s)| <= i < |s| ==> IsSpace(s[i])
    decreases |s|
  {
    if |s| > 0 && IsSpace(s[|s| - 1]) {
      var t := s[..|s| - 1];
      StripRightSpaces(t);
      forall i | |StripRight(s)| <= i < |t| ensures IsSpace(s[i]) {
        assert s[i] == t[i];
      }
    }
  }

  /** `str.strip()`: a slice of `s` with no whitespace at either end. What it
      removes is whitespace (`StripRemovesSpace`), so it is the longest such
      slice. */
  function Strip(s: string): (r: string)
    ensures IsStripped(r)
    ensures Lead(s) + |r| <= |s| && r == s[Lead(s)..Lead(s) + |r|]
  {
    var l := StripLeft(s);
    var r := StripRight(l);
    assert Lead(s) == |s| - |l|;
    SliceOfSuffix(s, l, r);
    StrippedPrefix(l, r);
    r
  }

  /** Everything `strip` removes, at either end, is whitespace. */
  lemma StripRemovesSpace(s: string)
    ensures forall i :: 0 <= i < Lead(s) ==> IsSpace(s[i])
    ensures forall i :: Lead(s) + |Strip(s)| <= i < |s| ==> IsSpace(s[i])
  {
    var l := StripLeft(s);
    StripLeftSpaces(s);
    StripRightSpaces(l);
    ShiftAll(s, l, |StripRight(l)|, IsSpace);
  }

  /** A prefix of a string with no leading whitespace, itself with no
      trailing whitespace, is stripped. */
  lemma StrippedPrefix(l: string, r: string)
    requires l == [] || !IsSpace(l[0])
    requires |r| <= |l| && r == l[..|r|]
    requires r == [] || !IsSpace(r[|r| - 1])
    ensures IsStripped(r)
  {
    assert r == [] || r[0] == l[0];
  }

  /** A prefix `r` of a suffix `l` of `s` is a slice of `s`. */
  lemma SliceOfSuffix(s: string, l: string, r: string)
    requires |l| <= |s| && l == s[|s| - |l|..]
    requires |r| <= |l| && r == l[..|r|]
    ensures r == s[|s| - |l|..|s| - |l| + |r|]
  {
  }

  /** A property of the tail `l[lo..]` of a suffix `l` of `s` holds of the
      same characters counted in `s`. */
  lemma ShiftAll(s: string, l: string, lo: nat, p: char -> bool)
    requires |l| <= |s| && l == s[|s| - |l|..]
    requires forall i :: lo <= i < |l| ==> p(l[i])
    ensures forall i :: |s| - |l| + lo <= i < |s| ==> p(s[i])
  {
    forall i | |s| - |l| + lo <= i < |s| ensures p(s[i]) {
      assert s[i] == l[i - (|s| - |l|)];
    }
  }

  /** The stripped string sits in its argument right after the leading
      whitespace. */
  lemma StripOccurs(s: string)
    ensures OccursAt(s, Strip(s), Lead(s))
  {
  }

  /** Stripping a slice of `s` gives a piece of `s`. */
  lemma StripOfSlice(s: string, lo: nat, hi: nat)
    requires lo <= hi <= |s|
    ensures Contains(s, Strip(s[lo..hi]))
  {
    var n := s[lo..hi];
    StripOccurs(n);
    OccursInSlice(s, Strip(n), lo, hi, Lead(n));
  }

  /** Stripping only removes characters: it is no longer than its argument
      and brings in no character the argument lacks. */
  lemma StripKeepsAbsent(s: string, c: char)
    requires c !in s
    ensures |Strip(s)| <= |s| && c !in Strip(s)
  {
    var r := Strip(s);
    forall j | 0 <= j < |r| ensures r[j] != c {
      assert r[j] == s[Lead(s) + j];
    }
  }

  /** Whitespace around a stripped text is exactly what `strip()` removes. */
  lemma StripPadded(a: string, t: string, b: string)
    requires forall i :: 0 <= i < |a| ==> IsSpace(a[i])
    requires forall i :: 0 <= i < |b| ==> IsSpace(b[i])
    requires IsStripped(t)
    ensures Strip(a + t + b) == t
  {
    var s := a + t + b;
    assert forall i :: 0 <= i < |a| ==> IsSpace(s[i]);
    assert forall i :: |a| + |t| <= i < |s| ==> IsSpace(s[i]);
    if t == [] {
      assert forall i :: 0 <= i < |s| ==> IsSpace(s[i]);
      StripWindow(s, 0, 0);
    } else {
      assert s[|a|] == t[0] && s[|a| + |t| - 1] == t[|t| - 1];
      StripWindow(s, |a|, |a| + |t|);
      assert s[|a|..|a| + |t|] == t;
    }
  }

  /** When `s[lo..hi]` is blank or starts and ends with non-whitespace, and
      everything outside it is whitespace, `strip()` keeps exactly `s[lo..hi]`. */
  lemma StripWindow(s: string, lo: nat, hi: nat)
    requires lo <= hi <= |s|
    requires lo == hi ==> lo == 0 && hi == 0 && forall i :: 0 <= i < |s| ==> IsSpace(s[i])
    requires lo < hi ==> !IsSpace(s[lo]) && !IsSpace(s[hi - 1])
    requires forall i :: 0 <= i < lo ==> IsSpace(s[i])
    requires forall i :: hi <= i < |s| ==> IsSpace(s[i])
    ensures Strip(s) == s[lo..hi]
  {
    var r, l := Strip(s), Lead(s);
    assert l + |r| <= |s| && r == s[l..l + |r|];
    if lo < hi {
      StripKeepsSpan(s, lo, hi - 1);
      assert l <= lo && hi <= l + |r|;
      assert r[0] == s[l];
      assert l == lo;
      assert r[|r| - 1] == s[l + |r| - 1];
      assert l + |r| == hi;
    }
  }

  /** Stripping a stripped string changes nothing, so stripping twice is
      stripping once. */
  lemma StripIdempotent(s: string)
    ensures IsStripped(s) ==> Strip(s) == s
    ensures Strip(Strip(s)) == Strip(s)
  {
    var t := Strip(s);
    assert StripLeft(t) == t;
    assert StripRight(t) == t;
    if IsStripped(s) {
      assert StripLeft(s) == s;
      assert StripRight(s) == s;
    }
  }

  /** ASCII lower-casing of one character (the body is taken as decoded text
      whose case mapping is the ASCII one). */
  function LowerChar(c: char): char {
    if 'A' <= c <= 'Z' then (c as int + 32) as char else c
  }

  /** `str.lower()` under ASCII case mapping: same length, character by character. */
  function Lower(s: string): (r: string)
    ensures |r| == |s|
    ensures forall i :: 0 <= i < |s| ==> r[i] == LowerChar(s[i])
  {
    seq(|s|, i requires 0 <= i < |s| => LowerChar(s[i]))
  }

  /** `t` occurs in `s` starting at index `i`. */
  predicate OccursAt(s: string, t: string, i: int) {
    0 <= i && i + |t| <= |s| && s[i..i + |t|] == t
  }

  /** Python's `t in s`. */
  predicate Contains(s: string, t: string) {
    exists i :: 0 <= i <= |s| - |t| && OccursAt(s, t, i)
  }

  /** Search for `t` in `s` from index `from` on. */
  function FindFrom(s: string, t: string, from: nat): (r: int)
    requires from <= |s|
    ensures r == -1 || (from <= r && OccursAt(s, t, r))
    ensures forall j :: from <= j && (r == -1 || j < r) ==> !OccursAt(s, t, j)
    decreases |s| - from
  {
    if from + |t| > |s| then -1
    else if s[from..from + |t|] == t then from
    else
      assert |t| > 0;
      FindFrom(s, t, from + 1)
  }

  /** Python's `s.find(t)`: the first index at which `t` occurs, or -1 when it
      does not occur at all. */
  function Find(s: string, t: string): (r: int)
    ensures r == -1 <==> !Contains(s, t)
    ensures r >= 0 ==> OccursAt(s, t, r)
    ensures forall j :: 0 <= j && (r == -1 || j < r) ==> !OccursAt(s, t, j)
  {
    FindFrom(s, t, 0)
  }

  /** An occurrence in a slice is an occurrence in the whole string. */
  lemma OccursInSlice(s: string, t: string, lo: nat, hi: nat, i: int)
    requires lo <= hi <= |s|
    requires OccursAt(s[lo..hi], t, i)
    ensures OccursAt(s, t, lo + i) && Contains(s, t)
  {
    forall k | 0 <= k < |t| ensures s[lo + i..lo + i + |t|][k] == t[k] {
      assert s[lo..hi][i..i + |t|][k] == t[k];
    }
    assert OccursAt(s, t, lo + i);
  }

  /** Characters between two non-whitespace characters of `s` survive
      stripping: the span from `i` to `j` lies in the kept slice. */
  lemma StripKeepsSpan(s: string, i: nat, j: nat)
    requires i <= j < |s| && !IsSpace(s[i]) && !IsSpace(s[j])
    ensures Lead(s) <= i && j < Lead(s) + |Strip(s)|
  {
    StripRemovesSpace(s);
  }

  /** An occurrence lying inside the slice `s[lo..lo + |r|]` is an occurrence
      in that slice, shifted by `lo`. */
  lemma OccursInWindow(s: string, r: string, lo: nat, t: string, i: nat) returns (k: nat)
    requires lo + |r| <= |s| && r == s[lo..lo + |r|]
    requires lo <= i && i + |t| <= lo + |r| && OccursAt(s, t, i)
    ensures k == i - lo && k <= i && |r| - k <= |s| - i
    ensures OccursAt(r, t, k) && Contains(r, t)
  {
    k := i - lo;
    forall j | 0 <= j < |t| ensures r[i - lo + j] == t[j] {
      assert r[i - lo + j] == s[i + j] == s[i..i + |t|][j];
    }
    assert OccursAt(r, t, i - lo);
  }

  /** Stripping keeps every occurrence of a non-empty stripped needle: the
      needle's first and last characters are not whitespace, so the removed
      ends cannot reach into it. */
  lemma StripKeepsOccurrence(s: string, t: string, i: nat)
    requires t != [] && IsStripped(t) && OccursAt(s, t, i)
    ensures Contains(Strip(s), t)
  {
    var k := StripShiftsOccurrence(s, t, i);
  }

  /** Where the occurrence lands: stripping moves it left by the whitespace
      cut from the front, and cuts at most what followed it from the back. */
  lemma StripShiftsOccurrence(s: string, t: string, i: nat) returns (k: nat)
    requires t != [] && IsStripped(t) && OccursAt(s, t, i)
    ensures k <= i && |Strip(s)| - k <= |s| - i
    ensures OccursAt(Strip(s), t, k) && Contains(Strip(s), t)
  {
    var r, lo := Strip(s), Lead(s);
    assert lo + |r| <= |s| && r == s[lo..lo + |r|];
    StripSpanBounds(s, t, i);
    assert lo <= i && i + |t| <= lo + |r|;
    k := OccursInWindow(s, r, lo, t, i);
  }

  /** The occurrence lies inside the slice that stripping keeps. */
  lemma StripSpanBounds(s: string, t: string, i: nat)
    requires t != [] && IsStripped(t) && OccursAt(s, t, i)
    ensures Lead(s) <= i && i + |t| <= Lead(s) + |Strip(s)|
  {
    OccurrenceEnds(s, t, i);
    StripKeepsSpan(s, i, i + |t| - 1);
  }

  /** The ends of an occurrence of a stripped needle are not whitespace. */
  lemma OccurrenceEnds(s: string, t: string, i: nat)
    requires t != [] && IsStripped(t) && OccursAt(s, t, i)
    ensures i + |t| <= |s| && !IsSpace(s[i]) && !IsSpace(s[i + |t| - 1])
  {
    assert s[i] == s[i..i + |t|][0] == t[0];
    assert s[i + |t| - 1] == s[i..i + |t|][|t| - 1] == t[|t| - 1];
  }

  /** A needle whose first character is missing from `s` does not occur in it. */
  lemma AbsentFirstChar(s: string, t: string)
    requires t != [] && t[0] !in s
    ensures !Contains(s, t)
  {
    forall i | 0 <= i <= |s| - |t| ensures !OccursAt(s, t, i) {
      assert s[i..i + |t|][0] == s[i] != t[0];
    }
  }

  /** For a one-character needle, `Contains` is character membership. */
  lemma ContainsChar(s: string, c: char)
    ensures Contains(s, [c]) <==> c in s
  {
    if c in s {
      var i :| 0 <= i < |s| && s[i] == c;
      assert OccursAt(s, [c], i);
    }
    if Contains(s, [c]) {
      var i :| 0 <= i <= |s| - 1 && OccursAt(s, [c], i);
      assert s[i..i + 1][0] == c;
    }
  }

  /** Python's `s.startswith(p)`. */
  predicate StartsWith(s: string, p: string) {
    p <= s
  }

  /** Python's `s.endswith(p)`. */
  predicate EndsWith(s: string, p: string) {
    |p| <= |s| && s[|s| - |p|..] == p
  }
}
