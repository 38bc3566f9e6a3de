/** Input normalisation in `main_scan`: the wordlist lines (GENSCAN.py:188)
    and the comma-separated status-code list (GENSCAN.py:194-204). */
module Inputs {
  import opened Wrappers
  import opened Text
  import opened Pieces

  /** `[line.strip() for line in f if line.strip()]`: the stripped lines,
      blank ones dropped, in file order. */
  function Words(lines: seq<string>): (words: seq<string>)
    ensures |words| <= |lines|
    ensures forall i :: 0 <= i < |words| ==> words[i] != [] && IsStripped(words[i])
  {
    if |lines| == 0 then []
    else
      var w := Strip(lines[0]);
      (if w == [] then [] else [w]) + Words(lines[1..])
  }

  /** A word is on the list exactly when it is the non-blank stripped form of
      some line. */
  lemma {:induction false} WordsMembership(lines: seq<string>, w: string)
    ensures w in Words(lines) <==> w != [] && exists i :: 0 <= i < |lines| && Strip(lines[i]) == w
    decreases |lines|
  {
    if |lines| > 0 {
      WordsMembership(lines[1..], w);
      if exists i :: 0 <= i < |lines| && Strip(lines[i]) == w {
        var i :| 0 <= i < |lines| && Strip(lines[i]) == w;
        if i > 0 {
          assert lines[1..][i - 1] == lines[i];
        }
      }
      if exists i :: 0 <= i < |lines[1..]| && Strip(lines[1..][i]) == w {
        var i :| 0 <= i < |lines[1..]| && Strip(lines[1..][i]) == w;
        assert lines[i + 1] == lines[1..][i];
      }
    }
  }

  /** Normalising a normalised list changes nothing. */
  lemma {:induction false} WordsIdempotent(lines: seq<string>)
    ensures Words(Words(lines)) == Words(lines)
    decreases |lines|
  {
    if |lines| > 0 {
      WordsIdempotent(lines[1..]);
      var w := Strip(lines[0]);
      var rest := Words(lines[1..]);
      assert Words(lines) == (if w == [] then [] else [w]) + rest;
      if w == [] {
        assert Words(lines) == rest;
      } else {
        var ws := [w] + rest;
        assert ws[0] == w && ws[1..] == rest;
        StripIdempotent(lines[0]);
        assert Strip(ws[0]) == w;
        assert Words(ws) == [w] + Words(rest);
      }
    }
  }

  /** The list of a file is the lists of its parts one after the other:
      lines keep their order and their multiplicity. */
  lemma {:induction false} WordsAppend(a: seq<string>, b: seq<string>)
    ensures Words(a + b) == Words(a) + Words(b)
    decreases |a|
  {
    if |a| == 0 {
      assert a + b == b;
    } else {
      assert (a + b)[0] == a[0];
      assert (a + b)[1..] == a[1..] + b;
      WordsAppend(a[1..], b);
    }
  }

  /** One line gives its stripped form, or nothing when it is blank. */
  lemma WordsSingle(line: string)
    ensures Words([line]) == if Strip(line) == [] then [] else [Strip(line)]
  {
    assert [line][1..] == [];
  }

  /** The `word.strip()` in `scan_target` never alters a word from the list. */
  lemma WordsNeedNoStrip(lines: seq<string>, i: nat)
    requires i < |Words(lines)|
    ensures Strip(Words(lines)[i]) == Words(lines)[i]
  {
    StripIdempotent(Words(lines)[i]);
  }

  predicate IsDigit(c: char) {
    48 <= c as int <= 57
  }

  function DigitValue(c: char): nat
    requires IsDigit(c)
  {
    c as int - 48
  }

  /** The value of a digit run `digit ('_'? digit)*` (the underscores Python's
      `int` accepts between digits are ignored); None for anything else. */
  function DigitsValue(s: string): (r: Option<nat>)
    ensures r.Some? ==> |s| > 0 && IsDigit(s[0]) && IsDigit(s[|s| - 1])
    decreases |s|
  {
    if |s| == 0 || !IsDigit(s[|s| - 1]) then None
    else if |s| == 1 then Some(DigitValue(s[0]))
    else
      match DigitsValue(RunInit(s))
      case Some(v) => Some(10 * v + DigitValue(s[|s| - 1]))
      case None => None
  }

  /** What is left of a digit run once its last digit, and an underscore
      just before it, are dropped. */
  function RunInit(s: string): (r: string)
    requires |s| >= 2
    ensures |r| < |s| && (r != [] ==> r[0] == s[0])
  {
    if s[|s| - 2] == '_' then s[..|s| - 2] else s[..|s| - 1]
  }

  /** One step of `DigitsValue`: the last digit is appended in base 10 to
      the value of what precedes it. */
  lemma DigitsStep(s: string)
    requires |s| >= 2 && IsDigit(s[|s| - 1])
    ensures DigitsValue(s) == match DigitsValue(RunInit(s))
      case Some(v) => Some(10 * v + DigitValue(s[|s| - 1]))
      case None => None
  {
  }

  /** A non-empty text of digits alone is a digit run. */
  lemma DigitsOfAllDigits(s: string)
    ensures |s| > 0 && (forall i :: 0 <= i < |s| ==> IsDigit(s[i])) ==> DigitsValue(s).Some?
  {
    if |s| > 0 && forall i :: 0 <= i < |s| ==> IsDigit(s[i]) {
      assert forall i :: 0 <= i < |s| ==> RunAt(s, i);
      DigitsValueRun(s);
    }
  }

  /** Python's `int(t)` in base 10 over ASCII digits, for a `t` that
      `.strip()` has already cleaned (so the whitespace `int` itself would
      strip is gone, see `StripIdempotent`): an optional sign, then a digit
      run; None where `int` raises `ValueError`. */
  function ParseInt(t: string): (r: Option<int>)
    ensures r.Some? ==> |t| > 0 && IsDigit(t[|t| - 1])
    ensures r.Some? ==> IsDigit(t[0]) || (|t| >= 2 && (t[0] == '+' || t[0] == '-') && IsDigit(t[1]))
    ensures r.Some? ==> (r.value < 0 ==> t[0] == '-') && (t[0] == '-' ==> r.value <= 0)
    ensures |t| > 0 && (forall i :: 0 <= i < |t| ==> IsDigit(t[i])) ==> r.Some? && r.value >= 0
  {
    DigitsOfAllDigits(t);
    if |t| > 0 && (t[0] == '+' || t[0] == '-') then
      assert |t| > 1 ==> t[1..][0] == t[1] && t[1..][|t| - 2] == t[|t| - 1];
      match DigitsValue(t[1..])
      case Some(v) => var n: int := v; Some(if t[0] == '-' then -n else n)
      case None => None
    else
      match DigitsValue(t)
      case Some(v) => Some(v)
      case None => None
  }

  /** The digit runs Python's `int` accepts: `digit ('_'? digit)*`, that is
      digits and underscores where every underscore sits between two digits. */
  predicate IsDigitRun(s: string) {
    |s| > 0 && forall i :: 0 <= i < |s| ==> RunAt(s, i)
  }

  /** Position `i` of a digit run: a digit, or an underscore between two. */
  predicate RunAt(s: string, i: nat)
    requires i < |s|
  {
    IsDigit(s[i]) || (s[i] == '_' && 0 < i < |s| - 1 && IsDigit(s[i - 1]) && IsDigit(s[i + 1]))
  }

  /** The texts `int` accepts (after stripping): an optional sign, then a
      digit run. */
  predicate IsIntText(t: string) {
    IsDigitRun(t) || (|t| > 1 && (t[0] == '+' || t[0] == '-') && IsDigitRun(t[1..]))
  }

  /** A digit run starts and ends with a digit. */
  lemma RunEnds(s: string)
    requires IsDigitRun(s)
    ensures IsDigit(s[0]) && IsDigit(s[|s| - 1])
  {
    assert RunAt(s, 0) && RunAt(s, |s| - 1);
  }

  /** `DigitsValue` has a value exactly on digit runs. */
  lemma {:induction false} DigitsValueRun(s: string)
    ensures DigitsValue(s).Some? <==> IsDigitRun(s)
    decreases |s|
  {
    if |s| == 0 {
    } else if !IsDigit(s[|s| - 1]) {
      assert !RunAt(s, |s| - 1);
    } else if |s| == 1 {
    } else if s[|s| - 2] == '_' {
      DigitsValueRun(s[..|s| - 2]);
      RunDropUnderscoreDigit(s);
    } else {
      DigitsValueRun(s[..|s| - 1]);
      RunDropDigit(s);
    }
  }

  /** A run ending in `_d` is a run exactly when what precedes `_d` is. */
  lemma RunDropUnderscoreDigit(s: string)
    requires |s| >= 2 && IsDigit(s[|s| - 1]) && s[|s| - 2] == '_'
    ensures IsDigitRun(s) <==> IsDigitRun(s[..|s| - 2])
  {
    var n := |s|;
    var init := s[..n - 2];
    if IsDigitRun(s) {
      assert RunAt(s, n - 2);
      forall i | 0 <= i < |init|
        ensures RunAt(init, i)
      {
        assert init[i] == s[i] && RunAt(s, i);
        if !IsDigit(s[i]) {
          assert i != n - 3;
          assert init[i - 1] == s[i - 1] && init[i + 1] == s[i + 1];
        }
      }
    }
    if IsDigitRun(init) {
      RunEnds(init);
      forall i | 0 <= i < n
        ensures RunAt(s, i)
      {
        if i < n - 2 {
          assert s[i] == init[i] && RunAt(init, i);
          if !IsDigit(s[i]) {
            assert s[i - 1] == init[i - 1] && s[i + 1] == init[i + 1];
          }
        } else if i == n - 2 {
          assert s[i - 1] == init[|init| - 1];
        }
      }
    }
  }

  /** A run ending in a digit not preceded by `_` is a run exactly when the
      text before that digit is. */
  lemma RunDropDigit(s: string)
    requires |s| >= 2 && IsDigit(s[|s| - 1]) && s[|s| - 2] != '_'
    ensures IsDigitRun(s) <==> IsDigitRun(s[..|s| - 1])
  {
    var n := |s|;
    var init := s[..n - 1];
    if IsDigitRun(s) {
      forall i | 0 <= i < |init|
        ensures RunAt(init, i)
      {
        assert init[i] == s[i] && RunAt(s, i);
        if !IsDigit(s[i]) {
          assert i != n - 2;
          assert init[i - 1] == s[i - 1] && init[i + 1] == s[i + 1];
        }
      }
    }
    if IsDigitRun(init) {
      RunEnds(init);
      forall i | 0 <= i < n
        ensures RunAt(s, i)
      {
        if i < n - 1 {
          assert s[i] == init[i] && RunAt(init, i);
          if !IsDigit(s[i]) {
            assert i < n - 2;
            assert s[i - 1] == init[i - 1] && s[i + 1] == init[i + 1];
          }
        }
      }
    }
  }

  /** `int(t)` succeeds exactly on an optional sign followed by a digit run. */
  lemma ParseIntGrammar(t: string)
    ensures ParseInt(t).Some? <==> IsIntText(t)
  {
    if |t| > 0 && (t[0] == '+' || t[0] == '-') {
      DigitsValueRun(t[1..]);
      if IsDigitRun(t) {
        RunEnds(t);
      }
    } else {
      DigitsValueRun(t);
    }
  }

  /** A leading `+` changes nothing: `int("+" + d) == int(d)`. */
  lemma ParseIntPlus(d: string)
    requires IsDigitRun(d)
    ensures ParseInt("+" + d) == ParseInt(d)
  {
    RunEnds(d);
    assert ("+" + d)[0] == '+' && ("+" + d)[1..] == d;
  }

  /** A leading zero changes nothing: `int("0" + d) == int(d)`. */
  lemma ParseIntLeadingZero(d: string)
    requires IsDigitRun(d)
    ensures ParseInt("0" + d) == ParseInt(d)
  {
    RunEnds(d);
    DigitsLeadingZero(d);
    assert ("0" + d)[0] == '0';
  }

  lemma {:induction false} DigitsLeadingZero(d: string)
    requires d != [] && IsDigit(d[0])
    ensures DigitsValue("0" + d) == DigitsValue(d)
    decreases |d|
  {
    var s := "0" + d;
    assert s[|s| - 1] == d[|d| - 1];
    if IsDigit(d[|d| - 1]) {
      if |d| == 1 {
        assert s[..|s| - 1] == "0";
      } else {
        assert |d| > 2 || d[|d| - 2] != '_';
        var initD := if d[|d| - 2] == '_' then d[..|d| - 2] else d[..|d| - 1];
        assert s[|s| - 2] == d[|d| - 2];
        assert (if s[|s| - 2] == '_' then s[..|s| - 2] else s[..|s| - 1]) == "0" + initD;
        assert initD[0] == d[0];
        DigitsLeadingZero(initD);
      }
    }
  }

  /** An underscore between two digit runs changes nothing:
      `int(a + "_" + b) == int(a + b)`. */
  lemma ParseIntUnderscore(a: string, b: string)
    requires IsDigitRun(a) && IsDigitRun(b)
    ensures ParseInt(a + "_" + b) == ParseInt(a + b)
  {
    RunEnds(a);
    RunEnds(b);
    DigitsUnderscore(a, b);
    assert (a + "_" + b)[0] == a[0] && (a + b)[0] == a[0];
  }

  lemma DigitsUnderscore(a: string, b: string)
    requires a != [] && IsDigit(a[|a| - 1]) && b != [] && IsDigit(b[0])
    ensures DigitsValue(a + "_" + b) == DigitsValue(a + b)
  {
    var p, q := a + "_" + [b[0]], a + [b[0]];
    UnderscoreBeforeDigit(a, b[0]);
    DigitsSameTail(p, q, b[1..]);
    MoveFirst(a + "_", b);
    MoveFirst(a, b);
  }

  lemma UnderscoreBeforeDigit(a: string, c: char)
    requires a != [] && IsDigit(a[|a| - 1]) && IsDigit(c)
    ensures var p, q := a + "_" + [c], a + [c];
      p[|p| - 1] == c && q[|q| - 1] == c && DigitsValue(p) == DigitsValue(q)
  {
    var p, q := a + "_" + [c], a + [c];
    assert p[|p| - 1] == c && p[|p| - 2] == '_' && p[..|p| - 2] == a;
    assert q[|q| - 1] == c && q[|q| - 2] == a[|a| - 1] && q[..|q| - 1] == a;
    assert RunInit(p) == a && RunInit(q) == a;
    DigitsStep(p);
    DigitsStep(q);
  }

  lemma MoveFirst(x: string, b: string)
    requires b != []
    ensures x + b == x + [b[0]] + b[1..]
  {
    assert b == [b[0]] + b[1..];
  }

  /** Two texts ending in a digit that read as the same number still do so
      after the same text is appended to both. */
  lemma {:induction false} DigitsSameTail(p: string, q: string, b: string)
    requires p != [] && IsDigit(p[|p| - 1]) && q != [] && IsDigit(q[|q| - 1])
    requires DigitsValue(p) == DigitsValue(q)
    ensures DigitsValue(p + b) == DigitsValue(q + b)
    decreases |b|
  {
    var s, u := p + b, q + b;
    if b == [] {
      assert s == p && u == q;
    } else if !IsDigit(b[|b| - 1]) {
      assert s[|s| - 1] == b[|b| - 1] && u[|u| - 1] == b[|b| - 1];
      assert DigitsValue(s) == None && DigitsValue(u) == None;
    } else {
      var c := b[|b| - 1];
      assert s[|s| - 1] == c && u[|u| - 1] == c;
      var n := if |b| >= 2 && b[|b| - 2] == '_' then |b| - 2 else |b| - 1;
      assert RunInit(s) == p + b[..n] by { SlicesAfterEnd(p, b); }
      assert RunInit(u) == q + b[..n] by { SlicesAfterEnd(q, b); }
      DigitsSameTail(p, q, b[..n]);
      DigitsSameStep(s, u);
    }
  }

  /** Texts with the same last digit, whose fronts read as the same number,
      read as the same number. */
  lemma DigitsSameStep(s: string, u: string)
    requires |s| >= 2 && |u| >= 2 && IsDigit(s[|s| - 1]) && u[|u| - 1] == s[|s| - 1]
    requires DigitsValue(RunInit(s)) == DigitsValue(RunInit(u))
    ensures DigitsValue(s) == DigitsValue(u)
  {
    DigitsStep(s);
    DigitsStep(u);
  }

  /** Dropping the last digit of `p + b` (and an underscore before it) drops
      them from `b` when `p` ends in a digit. */
  lemma SlicesAfterEnd(p: string, b: string)
    requires p != [] && IsDigit(p[|p| - 1]) && b != []
    ensures var n := if |b| >= 2 && b[|b| - 2] == '_' then |b| - 2 else |b| - 1;
      RunInit(p + b) == p + b[..n]
  {
    var s := p + b;
    if |b| == 1 {
      assert s[|s| - 2] == p[|p| - 1] && s[..|s| - 1] == p + b[..0];
    } else {
      assert s[|s| - 2] == b[|b| - 2];
      assert s[..|s| - 2] == p + b[..|b| - 2];
      assert s[..|s| - 1] == p + b[..|b| - 1];
    }
  }

  function DigitChar(d: nat): (c: char)
    requires d < 10
    ensures IsDigit(c) && DigitValue(c) == d
  {
    (48 + d) as char
  }

  /** Decimal digits of `n`, as `str(n)` writes them. */
  function ShowNat(n: nat): (s: string)
    ensures |s| >= 1 && forall i :: 0 <= i < |s| ==> IsDigit(s[i])
  {
    if n < 10 then [DigitChar(n)] else ShowNat(n / 10) + [DigitChar(n % 10)]
  }

  /** `str(i)` for an integer. */
  function ShowInt(i: int): string {
    if i < 0 then "-" + ShowNat(-i) else ShowNat(i)
  }

  lemma {:induction false} DigitsOfShowNat(n: nat)
    ensures DigitsValue(ShowNat(n)) == Some(n)
  {
    if n >= 10 {
      DigitsOfShowNat(n / 10);
      var s := ShowNat(n);
      var init := ShowNat(n / 10);
      assert s[..|s| - 1] == init;
      assert s[|s| - 2] == init[|init| - 1];
    }
  }

  /** `int(str(i)) == i`. */
  lemma ParseShowInt(i: int)
    ensures ParseInt(ShowInt(i)) == Some(i)
  {
    if i < 0 {
      DigitsOfShowNat(-i);
      ParseIntNegative(ShowNat(-i), -i);
    } else {
      DigitsOfShowNat(i);
      ParseIntUnsigned(ShowNat(i), i);
    }
  }

  lemma ParseIntNegative(d: string, n: nat)
    requires DigitsValue(d) == Some(n)
    ensures ParseInt("-" + d) == Some(-(n as int))
  {
    var t := "-" + d;
    assert t[0] == '-' && t[1..] == d;
  }

  lemma ParseIntUnsigned(d: string, n: nat)
    requires DigitsValue(d) == Some(n)
    ensures ParseInt(d) == Some(n)
  {
    assert IsDigit(d[0]);
  }

  /** `int(code.strip())` for one entry; None where `int` raises. Whitespace
      around the entry is ignored: an entry without any parses as it is, and
      one that parses is not blank. */
  function Code(piece: string): (r: Option<int>)
    ensures IsStripped(piece) ==> r == ParseInt(piece)
    ensures r.Some? ==> Strip(piece) != [] && IsDigit(Strip(piece)[|Strip(piece)| - 1])
  {
    StripIdempotent(piece);
    ParseInt(Strip(piece))
  }

  /** Whitespace around an entry is ignored: `int((a + t + b).strip()) ==
      int(t)` when `a` and `b` are whitespace and `t` has none at its ends. */
  lemma CodeOfPadded(a: string, t: string, b: string)
    requires forall i :: 0 <= i < |a| ==> IsSpace(a[i])
    requires forall i :: 0 <= i < |b| ==> IsSpace(b[i])
    requires IsStripped(t)
    ensures Code(a + t + b) == ParseInt(t)
  {
    StripPadded(a, t, b);
  }

  /** All the values of a list of options, or None as soon as one is missing. */
  function Values(opts: seq<Option<int>>): (r: Option<seq<int>>)
    ensures r.Some? <==> forall i :: 0 <= i < |opts| ==> opts[i].Some?
    ensures r.Some? ==> |r.value| == |opts|
    ensures r.Some? ==> forall i :: 0 <= i < |opts| ==> r.value[i] == opts[i].value
    decreases |opts|
  {
    if |opts| == 0 then Some([])
    else
      match opts[0]
      case None => None
      case Some(c) =>
        match Values(opts[1..])
        case None => None
        case Some(cs) => Some([c] + cs)
  }

  /** `[int(code.strip()) for code in pieces]`, None at the first piece that is
      not an integer (where the comprehension raises). */
  function ParseEach(pieces: seq<string>): (r: Option<seq<int>>)
    ensures r.Some? <==> forall i :: 0 <= i < |pieces| ==> Code(pieces[i]).Some?
    ensures r.Some? ==> |r.value| == |pieces|
    ensures r.Some? ==> forall i :: 0 <= i < |pieces| ==> r.value[i] == Code(pieces[i]).value
  {
    var opts := seq(|pieces|, i requires 0 <= i < |pieces| => Code(pieces[i]));
    assert forall i :: 0 <= i < |pieces| ==> opts[i] == Code(pieces[i]);
    Values(opts)
  }

  /** The message `main_scan` prints before exiting on a malformed list. */
  const MalformedCodes: string := "please enter ',' in status code eg .. '200,400,300'."

  /** The desired status codes from the `--status-codes` argument: None (the
      implicit 200) when the argument is absent or empty, the list when every
      comma-separated entry is an integer, a failure otherwise. */
  function StatusCodes(arg: Option<string>): (r: Result<Option<seq<int>>, string>)
    ensures arg.None? || arg.value == [] ==> r == Success(None)
    ensures arg.Some? && arg.value != [] ==>
      var pieces := Split(arg.value, ",");
      && (r.Failure? <==> exists i :: 0 <= i < |pieces| && Code(pieces[i]).None?)
      && (r.Success? ==> r.value.Some? && |r.value.value| == |pieces| >= 1)
      && (r.Success? ==> forall i :: 0 <= i < |pieces| ==> r.value.value[i] == Code(pieces[i]).value)
  {
    if arg.None? || arg.value == [] then Success(None)
    else
      match ParseEach(Split(arg.value, ","))
      case Some(codes) => Success(Some(codes))
      case None => Failure(MalformedCodes)
  }

  /** `str(c)` for each code. */
  function Shown(codes: seq<int>): (r: seq<string>)
    ensures |r| == |codes|
    ensures forall i :: 0 <= i < |codes| ==> r[i] == ShowInt(codes[i])
  {
    seq(|codes|, i requires 0 <= i < |codes| => ShowInt(codes[i]))
  }

  /** `",".join(str(c) for c in codes)`. */
  function FormatCodes(codes: seq<int>): string {
    Join(Shown(codes), ",")
  }

  /** `str(i)` has no comma and no whitespace at its ends. */
  lemma ShowIntClean(i: int)
    ensures ',' !in ShowInt(i) && IsStripped(ShowInt(i))
  {
    var s := ShowInt(i);
    var digits := if i < 0 then ShowNat(-i) else ShowNat(i);
    assert s == if i < 0 then "-" + digits else digits;
    assert forall j :: 0 <= j < |s| ==> s[j] == '-' || IsDigit(s[j]);
  }

  /** `int(str(i).strip()) == i`. */
  lemma CodeOfShowInt(i: int)
    ensures Code(ShowInt(i)) == Some(i)
  {
    ShowIntClean(i);
    StripIdempotent(ShowInt(i));
    ParseShowInt(i);
  }

  /** Parsing the written-out codes entry by entry gives the codes back. */
  lemma ParseEachShown(codes: seq<int>)
    ensures ParseEach(Shown(codes)) == Some(codes)
  {
    var shown := Shown(codes);
    forall i | 0 <= i < |shown| ensures Code(shown[i]) == Some(codes[i]) {
      CodeOfShowInt(codes[i]);
    }
    ParseEachAll(shown, codes);
  }

  /** When every entry parses to the matching code, the list parses to the
      codes. */
  lemma ParseEachAll(pieces: seq<string>, codes: seq<int>)
    requires |pieces| == |codes|
    requires forall i :: 0 <= i < |pieces| ==> Code(pieces[i]) == Some(codes[i])
    ensures ParseEach(pieces) == Some(codes)
  {
    var r := ParseEach(pieces);
    assert r.Some?;
    assert |r.value| == |codes|;
    assert forall i :: 0 <= i < |codes| ==> r.value[i] == codes[i];
    assert r.value == codes;
  }

  /** Round trip: a non-empty list written out comma-separated parses back to
      itself. */
  lemma StatusCodesRoundTrip(codes: seq<int>)
    requires |codes| >= 1
    ensures StatusCodes(Some(FormatCodes(codes))) == Success(Some(codes))
  {
    var shown := Shown(codes);
    forall i | 0 <= i < |shown| ensures ',' !in shown[i] {
      ShowIntClean(codes[i]);
    }
    SplitOfJoin(shown, ',');
    assert FormatCodes(codes) != [] by {
      assert |FormatCodes(codes)| >= |shown[0]| > 0;
    }
    ParseEachShown(codes);
  }

  /** Round trip with the `", "` separator `main_scan` itself prints the list
      with: the space after each comma is stripped off every entry. */
  lemma StatusCodesSpacedRoundTrip(codes: seq<int>)
    requires |codes| >= 1
    ensures StatusCodes(Some(Join(Shown(codes), ", "))) == Success(Some(codes))
  {
    var pieces := SpacedPieces(codes);
    SpacedJoin(Shown(codes));
    StatusCodesOfPieces(pieces, codes);
  }

  /** Joining with `", "` is joining with `,` after padding every entry but
      the first with a space. */
  lemma SpacedJoin(parts: seq<string>)
    requires |parts| >= 1
    ensures Join(parts, ", ") == Join([parts[0]] + PadAll(parts[1..], " "), ",")
  {
    assert ", " == [','] + " " && "," == [','];
    JoinSpaced(parts, ',', " ");
  }

  /** Entries without commas that each parse, joined with `,`, parse back. */
  lemma StatusCodesOfPieces(pieces: seq<string>, codes: seq<int>)
    requires |pieces| == |codes| >= 1 && |pieces[0]| > 0
    requires forall i :: 0 <= i < |pieces| ==> ',' !in pieces[i] && Code(pieces[i]) == Some(codes[i])
    ensures StatusCodes(Some(Join(pieces, ","))) == Success(Some(codes))
  {
    CommaJoinSplits(pieces);
    ParseEachAll(pieces, codes);
    assert ParseEach(Split(Join(pieces, ","), ",")) == Some(codes);
  }

  lemma CommaJoinSplits(pieces: seq<string>)
    requires |pieces| >= 1 && |pieces[0]| > 0
    requires forall i :: 0 <= i < |pieces| ==> ',' !in pieces[i]
    ensures Join(pieces, ",") != [] && Split(Join(pieces, ","), ",") == pieces
  {
    SplitOfJoin(pieces, ',');
    assert |Join(pieces, ",")| >= |pieces[0]| > 0;
  }

  /** The entries `", ".join(map(str, codes)).split(',')` gives back: each
      one holds no comma and parses to its code. */
  lemma SpacedPieces(codes: seq<int>) returns (pieces: seq<string>)
    requires |codes| >= 1
    ensures pieces == [Shown(codes)[0]] + PadAll(Shown(codes)[1..], " ")
    ensures |pieces| == |codes| && |pieces[0]| > 0
    ensures forall i :: 0 <= i < |pieces| ==> ',' !in pieces[i] && Code(pieces[i]) == Some(codes[i])
  {
    pieces := seq(|codes|, i requires 0 <= i < |codes| =>
      if i == 0 then ShowInt(codes[0]) else " " + ShowInt(codes[i]));
    SpacedShape(codes, pieces);
    forall i | 0 <= i < |pieces| ensures ',' !in pieces[i] && Code(pieces[i]) == Some(codes[i]) {
      if i == 0 {
        ShowIntClean(codes[0]);
        CodeOfShowInt(codes[0]);
      } else {
        CodeOfSpacedShowInt(codes[i]);
      }
    }
  }

  lemma SpacedShape(codes: seq<int>, pieces: seq<string>)
    requires |codes| >= 1 && |pieces| == |codes| && pieces[0] == ShowInt(codes[0])
    requires forall i :: 1 <= i < |codes| ==> pieces[i] == " " + ShowInt(codes[i])
    ensures pieces == [Shown(codes)[0]] + PadAll(Shown(codes)[1..], " ")
  {
    var shown := Shown(codes);
    var padded := PadAll(shown[1..], " ");
    forall i | 1 <= i < |codes| ensures pieces[i] == padded[i - 1] {
      assert padded[i - 1] == " " + shown[1..][i - 1];
    }
  }

  /** An entry after `", "`: a space, then `str(c)`. */
  lemma CodeOfSpacedShowInt(c: int)
    ensures ',' !in " " + ShowInt(c) && Code(" " + ShowInt(c)) == Some(c)
  {
    ShowIntClean(c);
    assert " " + ShowInt(c) == " " + ShowInt(c) + [];
    CodeOfPadded(" ", ShowInt(c), []);
    ParseShowInt(c);
  }
}
