/** Character classes and string helpers with JavaScript's meaning: the `\s` class
    and `String.prototype.trim` (one character set), the line terminators that `^`
    (with the `m` flag) and `.` care about, `replace(/\s+/g, ' ')`, `split(/\s+/)`,
    and the decimal rendering of a length inside a template string.
    A `char` here is one Unicode scalar value, so a character outside the Basic
    Multilingual Plane counts once where the source's UTF-16 `length` counts it
    twice. */
module Text {

  /** The LineTerminator production of ECMAScript: `\n`, `\r`, U+2028, U+2029. */
  predicate IsLineTerminator(c: char) {
    c == '\n' || c == '\r' || c == '\U{2028}' || c == '\U{2029}'
  }

  /** ECMAScript WhiteSpace and LineTerminator code points: the characters `\s`
      matches and `trim` removes (tab, U+000B, U+000C, space, U+00A0, U+FEFF, the
      Zs category, and the four line terminators). */
  predicate IsSpace(c: char) {
    || c == '\t' || c == '\U{000B}' || c == '\U{000C}' || c == ' ' || c == '\U{00A0}'
    || c == '\U{FEFF}' || c == '\U{1680}' || '\U{2000}' <= c <= '\U{200A}'
    || c == '\U{202F}' || c == '\U{205F}' || c == '\U{3000}'
    || IsLineTerminator(c)
  }

  lemma LineTerminatorIsSpace(c: char)
    requires IsLineTerminator(c)
    ensures IsSpace(c)
  {
  }

  predicate AllSpace(s: string) {
    forall k :: 0 <= k < |s| ==> IsSpace(s[k])
  }

  predicate NoSpace(s: string) {
    forall k :: 0 <= k < |s| ==> !IsSpace(s[k])
  }

  /** The non-space characters of `s`, in order. */
  function Ink(s: string): string {
    if s == [] then []
    else if IsSpace(s[0]) then Ink(s[1..])
    else [s[0]] + Ink(s[1..])
  }

  lemma {:induction false} InkAppend(a: string, b: string)
    ensures Ink(a + b) == Ink(a) + Ink(b)
  {
    if a != [] {
      assert (a + b)[0] == a[0];
      assert (a + b)[1..] == a[1..] + b;
      InkAppend(a[1..], b);
      if IsSpace(a[0]) {
        assert Ink(a + b) == Ink(a[1..] + b);
      } else {
        assert Ink(a + b) == [a[0]] + Ink(a[1..] + b);
      }
    } else {
      assert a + b == b;
    }
  }

  lemma {:induction false} InkOfAllSpace(s: string)
    requires AllSpace(s)
    ensures Ink(s) == []
  {
    if s != [] {
      InkOfAllSpace(s[1..]);
    }
  }

  lemma {:induction false} InkOfNoSpace(s: string)
    requires NoSpace(s)
    ensures Ink(s) == s
  {
    if s != [] {
      InkOfNoSpace(s[1..]);
    }
  }

  /** `s` with its leading white space removed. */
  function TrimStart(s: string): (r: string)
    ensures |r| <= |s| && r == s[|s| - |r|..]
    ensures AllSpace(s[..|s| - |r|])
    ensures r != [] ==> !IsSpace(r[0])
  {
    if s != [] && IsSpace(s[0]) then TrimStart(s[1..]) else s
  }

  /** `s` with its trailing white space removed. */
  function TrimEnd(s: string): (r: string)
    ensures |r| <= |s| && r == s[..|r|]
    ensures AllSpace(s[|r|..])
    ensures r != [] ==> !IsSpace(r[|r| - 1])
  {
    if s != [] && IsSpace(s[|s| - 1]) then TrimEnd(s[..|s| - 1]) else s
  }

  /** `String.prototype.trim`. */
  function Trim(s: string): string {
    TrimEnd(TrimStart(s))
  }

  /** A string without white space at either end is its own trim. */
  lemma TrimOfTrimmed(s: string)
    requires s == [] || (!IsSpace(s[0]) && !IsSpace(s[|s| - 1]))
    ensures Trim(s) == s
  {
    assert TrimStart(s) == s;
  }

  /** `Trim` keeps exactly the part of `s` between a white-space prefix and a
      white-space suffix. */
  lemma TrimIsInfix(s: string)
    ensures var r := Trim(s); var i := |s| - |TrimStart(s)|;
      i + |r| <= |s| && s[i..i + |r|] == r && AllSpace(s[..i]) && AllSpace(s[i + |r|..])
  {
    TrimInfixSlice(s);
    TrimInfixEnds(s);
  }

  lemma TrimInfixSlice(s: string)
    ensures var r := Trim(s); var i := |s| - |TrimStart(s)|;
      i + |r| <= |s| && s[i..i + |r|] == r
  {
    var t := TrimStart(s);
    PrefixOfSuffix(s, t, TrimEnd(t), |s| - |t|);
  }

  /** A prefix `r` of the suffix `t` of `s` that starts at `i` is a slice of `s`. */
  lemma PrefixOfSuffix(s: string, t: string, r: string, i: nat)
    requires i <= |s| && t == s[i..] && |r| <= |t| && r == t[..|r|]
    ensures i + |r| <= |s| && s[i..i + |r|] == r
  {
    SuffixSlices(s, i, |r|);
  }

  lemma TrimInfixEnds(s: string)
    ensures var r := Trim(s); var i := |s| - |TrimStart(s)|;
      i + |r| <= |s| && AllSpace(s[..i]) && AllSpace(s[i + |r|..])
  {
    var t := TrimStart(s);
    var r := TrimEnd(t);
    var i := |s| - |t|;
    SuffixSlices(s, i, |r|);
    assert s[i + |r|..] == t[|r|..];
  }

  /** Slicing a suffix is slicing the string further along. */
  lemma SuffixSlices(s: string, i: nat, n: nat)
    requires i + n <= |s|
    ensures s[i..][..n] == s[i..i + n] && s[i..][n..] == s[i + n..]
  {
  }

  lemma {:induction false} InkTrimStart(s: string)
    ensures Ink(TrimStart(s)) == Ink(s)
  {
    if s != [] && IsSpace(s[0]) {
      InkTrimStart(s[1..]);
    }
  }

  lemma {:induction false} InkTrimEnd(s: string)
    ensures Ink(TrimEnd(s)) == Ink(s)
  {
    if s != [] && IsSpace(s[|s| - 1]) {
      var u := s[..|s| - 1];
      InkTrimEnd(u);
      assert s == u + [s[|s| - 1]];
      InkAppend(u, [s[|s| - 1]]);
    }
  }

  /** The trimmed string starts and ends with a non-space character, is empty
      exactly when `s` is all white space, and has the visible characters of `s`. */
  lemma TrimSpec(s: string)
    ensures var r := Trim(s);
      && (r != [] ==> !IsSpace(r[0]) && !IsSpace(r[|r| - 1]))
      && (r == [] <==> AllSpace(s))
      && Ink(r) == Ink(s)
  {
    var t := TrimStart(s);
    var r := TrimEnd(t);
    if r != [] {
      assert r[0] == t[0];
    }
    TrimKeepsInk(s);
  }

  lemma TrimKeepsInk(s: string)
    ensures Ink(Trim(s)) == Ink(s)
    ensures Trim(s) == [] <==> AllSpace(s)
  {
    InkTrimStart(s);
    InkTrimEnd(TrimStart(s));
    InkEmptyIffAllSpace(s);
    InkEmptyIffAllSpace(Trim(s));
  }

  lemma PlainSpaceIsSpace()
    ensures IsSpace(' ')
  {
  }

  /** Every white-space character of `s` is a plain space and no two are adjacent. */
  predicate SingleSpaced(s: string) {
    s == [] ||
    ((IsSpace(s[0]) ==> s[0] == ' ' && (|s| > 1 ==> !IsSpace(s[1]))) && SingleSpaced(s[1..]))
  }

  /** `s.replace(/\s+/g, ' ')`: every maximal run of white space becomes one space. */
  function CollapseSpaces(s: string): string {
    CollapseRun(s, false)
  }

  /** The replacement scan; `inRun` says the previous character was white space
      that has already been replaced. */
  function CollapseRun(s: string, inRun: bool): string {
    if s == [] then []
    else if IsSpace(s[0]) then
      (if inRun then [] else [' ']) + CollapseRun(s[1..], true)
    else [s[0]] + CollapseRun(s[1..], false)
  }

  /** The collapsed text is single-spaced; inside a run it never starts with a space. */
  lemma {:induction false} CollapseRunSingleSpaced(s: string, inRun: bool)
    ensures var r := CollapseRun(s, inRun);
      SingleSpaced(r) && (inRun ==> r == [] || !IsSpace(r[0]))
  {
    if s != [] {
      var t := s[1..];
      CollapseRunSingleSpaced(t, IsSpace(s[0]));
      var tail := CollapseRun(t, IsSpace(s[0]));
      if IsSpace(s[0]) && !inRun {
        assert CollapseRun(s, inRun) == [' '] + tail;
        assert ([' '] + tail)[1..] == tail;
      } else if !IsSpace(s[0]) {
        var r := [s[0]] + tail;
        assert CollapseRun(s, inRun) == r;
        assert r[0] == s[0] && r[1..] == tail;
        assert SingleSpaced(r);
      } else {
        assert CollapseRun(s, inRun) == tail;
      }
    }
  }

  /** Collapsing keeps every visible character, in order. */
  lemma {:induction false} CollapseRunKeepsInk(s: string, inRun: bool)
    ensures Ink(CollapseRun(s, inRun)) == Ink(s)
  {
    if s != [] {
      var t := s[1..];
      CollapseRunKeepsInk(t, IsSpace(s[0]));
      var tail := CollapseRun(t, IsSpace(s[0]));
      assert s == [s[0]] + t;
      InkAppend([s[0]], t);
      if IsSpace(s[0]) {
        PlainSpaceIsSpace();
        var head: string := if inRun then [] else [' '];
        InkAppend(head, tail);
        assert CollapseRun(s, inRun) == head + tail;
      } else {
        InkAppend([s[0]], tail);
        assert CollapseRun(s, inRun) == [s[0]] + tail;
      }
    }
  }

  /** Outside a run the collapsed text is empty exactly when `s` is, and starts
      with a space exactly when `s` does. */
  lemma CollapseRunFirst(s: string)
    ensures var r := CollapseRun(s, false);
      && (r == [] <==> s == [])
      && (s != [] ==> (IsSpace(r[0]) <==> IsSpace(s[0])))
  {
    PlainSpaceIsSpace();
  }

  /** The collapsed text ends with a space exactly when `s` does. */
  lemma {:induction false} CollapseRunLast(s: string, inRun: bool)
    ensures var r := CollapseRun(s, inRun);
      && (r != [] ==> s != [] && (IsSpace(r[|r| - 1]) <==> IsSpace(s[|s| - 1])))
      && (r == [] && s != [] ==> IsSpace(s[|s| - 1]))
  {
    if s != [] {
      var t := s[1..];
      var sp := IsSpace(s[0]);
      CollapseRunLast(t, sp);
      var tail := CollapseRun(t, sp);
      var head: string := if sp then (if inRun then [] else [' ']) else [s[0]];
      assert CollapseRun(s, inRun) == head + tail;
      if t != [] {
        assert t[|t| - 1] == s[|s| - 1];
      }
      if tail != [] {
        LastOfAppend(head, tail);
      } else if t == [] {
        PlainSpaceIsSpace();
        assert head + tail == head;
      } else if !sp {
        CollapseRunFirst(t);
      }
    }
  }

  lemma LastOfAppend(a: string, b: string)
    requires b != []
    ensures (a + b)[|a + b| - 1] == b[|b| - 1]
  {
  }

  lemma {:induction false} SingleSpacedInfix(s: string, i: nat, j: nat)
    requires SingleSpaced(s) && i <= j <= |s|
    ensures SingleSpaced(s[i..j])
    decreases |s|
  {
    if i < j {
      if i > 0 {
        SingleSpacedInfix(s[1..], i - 1, j - 1);
        assert s[1..][i - 1..j - 1] == s[i..j];
      } else {
        SingleSpacedInfix(s[1..], 0, j - 1);
        assert s[1..][0..j - 1] == s[i..j][1..];
      }
    }
  }

  /** The text part of `extractTextContent`: collapse runs of white space, then trim. */
  function NormalizeSpaces(s: string): string {
    Trim(CollapseSpaces(s))
  }

  /** The normalised text is single-spaced, has no space at either end, keeps the
      visible characters of `s`, and is empty exactly when `s` is all white space. */
  lemma NormalizeSpec(s: string)
    ensures var r := NormalizeSpaces(s);
      && SingleSpaced(r)
      && Ink(r) == Ink(s)
      && (r != [] ==> !IsSpace(r[0]) && !IsSpace(r[|r| - 1]))
      && (r == [] <==> AllSpace(s))
  {
    NormalizeSingleSpaced(s);
    NormalizeKeepsInk(s);
    TrimSpec(CollapseSpaces(s));
  }

  lemma NormalizeSingleSpaced(s: string)
    ensures SingleSpaced(NormalizeSpaces(s))
  {
    var c := CollapseSpaces(s);
    var r := Trim(c);
    CollapseRunSingleSpaced(s, false);
    TrimIsInfix(c);
    var i := |c| - |TrimStart(c)|;
    SingleSpacedInfix(c, i, i + |r|);
  }

  lemma NormalizeKeepsInk(s: string)
    ensures Ink(NormalizeSpaces(s)) == Ink(s)
    ensures NormalizeSpaces(s) == [] <==> AllSpace(s)
  {
    var c := CollapseSpaces(s);
    var r := Trim(c);
    CollapseRunKeepsInk(s, false);
    TrimKeepsInk(c);
    InkEmptyIffAllSpace(s);
    InkEmptyIffAllSpace(r);
  }

  lemma {:induction false} InkEmptyIffAllSpace(s: string)
    ensures Ink(s) == [] <==> AllSpace(s)
  {
    if s != [] {
      InkEmptyIffAllSpace(s[1..]);
      assert s == [s[0]] + s[1..];
    }
  }

  /** `s.split(/\s+/)`: the pieces between maximal white-space runs. */
  function SplitOnSpaces(s: string): seq<string> {
    SplitRun(s, false)
  }

  /** The split scan; the first piece of the result is the one being built, and
      `inRun` says the previous character was white space. */
  function SplitRun(s: string, inRun: bool): (r: seq<string>)
    ensures |r| >= 1
  {
    if s == [] then [[]]
    else if IsSpace(s[0]) then
      (if inRun then [] else [[]]) + SplitRun(s[1..], true)
    else
      var rest := SplitRun(s[1..], false);
      [[s[0]] + rest[0]] + rest[1..]
  }

  /** `pieces.join(sep)`. */
  function Join(pieces: seq<string>, sep: string): string {
    if pieces == [] then []
    else if |pieces| == 1 then pieces[0]
    else pieces[0] + sep + Join(pieces[1..], sep)
  }

  lemma JoinCons(x: string, tail: seq<string>, sep: string)
    requires |tail| >= 1
    ensures Join([x] + tail, sep) == x + sep + Join(tail, sep)
  {
    assert ([x] + tail)[1..] == tail;
  }

  lemma JoinExtendFirst(c: char, pieces: seq<string>, sep: string)
    requires |pieces| >= 1
    ensures Join([[c] + pieces[0]] + pieces[1..], sep) == [c] + Join(pieces, sep)
  {
    if |pieces| > 1 {
      JoinCons([c] + pieces[0], pieces[1..], sep);
      JoinCons(pieces[0], pieces[1..], sep);
      assert pieces == [pieces[0]] + pieces[1..];
    }
  }

  /** The pieces contain no white space, and joining them with one space is the
      same as collapsing the runs: the split loses nothing but the runs' shape. */
  lemma {:induction false} SplitRunSpec(s: string, inRun: bool)
    ensures var r := SplitRun(s, inRun);
      && (forall k :: 0 <= k < |r| ==> NoSpace(r[k]))
      && Join(r, " ") == CollapseRun(s, inRun)
  {
    if s != [] {
      var t := s[1..];
      SplitRunSpec(t, IsSpace(s[0]));
      var rest := SplitRun(t, IsSpace(s[0]));
      if IsSpace(s[0]) {
        if !inRun {
          JoinCons([], rest, " ");
          var r := SplitRun(s, inRun);
          assert r == [[]] + rest;
          assert forall k :: 1 <= k < |r| ==> r[k] == rest[k - 1];
          assert CollapseRun(s, inRun) == " " + CollapseRun(t, true);
        } else {
          assert SplitRun(s, inRun) == rest;
          assert CollapseRun(s, inRun) == CollapseRun(t, true);
        }
      } else {
        JoinExtendFirst(s[0], rest, " ");
        var r := SplitRun(s, inRun);
        assert r == [[s[0]] + rest[0]] + rest[1..];
        assert forall k :: 1 <= k < |r| ==> r[k] == rest[k];
        assert forall c | c in r[0] :: c == s[0] || c in rest[0];
      }
    }
  }

  /** On a string without white space at either end (`query.trim()` of a
      non-blank query), every piece of the split is non-empty. */
  lemma SplitOfTrimmedHasNoEmptyPiece(s: string)
    requires s != [] && !IsSpace(s[0]) && !IsSpace(s[|s| - 1])
    ensures forall k :: 0 <= k < |SplitOnSpaces(s)| ==> SplitOnSpaces(s)[k] != []
  {
    SplitRunPieces(s, false);
  }

  lemma {:induction false} SplitRunPieces(s: string, inRun: bool)
    requires s != [] && !IsSpace(s[|s| - 1])
    ensures var r := SplitRun(s, inRun);
      && (forall k :: 1 <= k < |r| ==> r[k] != [])
      && (r[0] != [] <==> (inRun || !IsSpace(s[0])))
  {
    var t := s[1..];
    if t != [] {
      assert t[|t| - 1] == s[|s| - 1];
      SplitRunPieces(t, IsSpace(s[0]));
      var rest := SplitRun(t, IsSpace(s[0]));
      var r := SplitRun(s, inRun);
      if IsSpace(s[0]) {
        if !inRun {
          assert r == [[]] + rest;
        }
      } else {
        assert r == [[s[0]] + rest[0]] + rest[1..];
        assert forall k :: 1 <= k < |r| ==> r[k] == rest[k];
      }
    }
  }

  predicate IsDigit(c: char) {
    '0' <= c <= '9'
  }

  function DigitChar(d: nat): (c: char)
    requires d < 10
    ensures IsDigit(c)
  {
    "0123456789"[d]
  }

  function DigitValue(c: char): (d: nat)
    requires IsDigit(c)
    ensures d < 10
  {
    (c as int - '0' as int) as nat
  }

  /** The decimal rendering of `n` (what `${n}` produces for a length). */
  function Decimal(n: nat): (r: string)
    ensures r != []
    ensures forall k :: 0 <= k < |r| ==> IsDigit(r[k])
  {
    if n < 10 then [DigitChar(n)] else Decimal(n / 10) + [DigitChar(n % 10)]
  }

  /** Reads a string of decimal digits back as a number. */
  function ParseDecimal(s: string): nat
    requires forall k :: 0 <= k < |s| ==> IsDigit(s[k])
  {
    if s == [] then 0 else ParseDecimal(s[..|s| - 1]) * 10 + DigitValue(s[|s| - 1])
  }

  lemma {:induction false} DecimalRoundTrip(n: nat)
    ensures ParseDecimal(Decimal(n)) == n
  {
    var r := Decimal(n);
    if n < 10 {
      assert DigitValue(DigitChar(n)) == n;
    } else {
      DecimalRoundTrip(n / 10);
      assert r[..|r| - 1] == Decimal(n / 10);
      assert DigitValue(DigitChar(n % 10)) == n % 10;
    }
  }

  lemma DecimalInjective(m: nat, n: nat)
    requires Decimal(m) == Decimal(n)
    ensures m == n
  {
    DecimalRoundTrip(m);
    DecimalRoundTrip(n);
  }

  /** A separator that occurs in neither left part splits a concatenation uniquely. */
  lemma SplitAtFirst(a: string, b: string, a': string, b': string, c: char)
    requires c !in a && c !in a'
    requires a + [c] + b == a' + [c] + b'
    ensures a == a' && b == b'
  {
    var s := a + [c] + b;
    assert forall k :: 0 <= k < |a| ==> s[k] == a[k];
    assert forall k :: 0 <= k < |a'| ==> s[k] == a'[k];
    assert s[|a|] == c && s[|a'|] == c;
    assert |a| == |a'|;
    assert a == s[..|a|] && a' == s[..|a'|];
    assert b == s[|a| + 1..] && b' == s[|a'| + 1..];
  }

  /** A separator that occurs in neither right part splits a concatenation uniquely. */
  lemma SplitAtLast(a: string, b: string, a': string, b': string, c: char)
    requires c !in b && c !in b'
    requires a + [c] + b == a' + [c] + b'
    ensures a == a' && b == b'
  {
    var s := a + [c] + b;
    assert forall k :: 0 <= k < |b| ==> s[|a| + 1 + k] == b[k];
    assert forall k :: 0 <= k < |b'| ==> s[|a'| + 1 + k] == b'[k];
    assert s[|a|] == c && s[|a'|] == c;
    assert |b| == |b'|;
    assert a == s[..|a|] && a' == s[..|a'|];
    assert b == s[|a| + 1..] && b' == s[|a'| + 1..];
  }
}
