/** The markdown table rewrite seen line by line. A text is a list of lines,
    each a body free of line terminators and the terminator that ends it (none
    for a last line that runs to the end of the text). Seen this way, the
    rewrite inserts a blank line after every table row whose newline is
    followed by a line that starts with text, and that makes it idempotent. */
module TableLines {
  import opened Text
  import opened MarkdownTables

  datatype Line = Line(body: string, term: string)

  function Full(l: Line): string {
    l.body + l.term
  }

  /** The text a list of lines spells. */
  function Join(ls: seq<Line>): string
    decreases |ls|
  {
    if ls == [] then [] else Full(ls[0]) + Join(ls[1..])
  }

  /** The lines of a text; a CRLF pair ends a line as one terminator. */
  function Lines(t: string): seq<Line>
    decreases |t|
  {
    if t == [] then []
    else
      var e := LineEnd(t, 0);
      var term := TermAt(t, e);
      [Line(t[..e], term)] + Lines(t[e + |term|..])
  }

  predicate NoTerminator(s: string) {
    forall k :: 0 <= k < |s| ==> !IsLineTerminator(s[k])
  }

  /** A CRLF pair or a single line terminator. */
  predicate IsTerm(term: string) {
    term == "\r\n" || (|term| == 1 && IsLineTerminator(term[0]))
  }

  /** A line holds no terminator in its body, and a line without a terminator
      is not empty. */
  predicate LineOk(l: Line) {
    NoTerminator(l.body) && (if l.term == [] then l.body != [] else IsTerm(l.term))
  }

  /** The lists `Lines` produces: every line but the last has a terminator, and
      a lone `\r` is not followed by an empty line ended by `\n`, which would
      make the two one CRLF pair. */
  predicate WellFormed(ls: seq<Line>)
    decreases |ls|
  {
    ls == [] ||
    (&& LineOk(ls[0])
     && (|ls| > 1 ==> && ls[0].term != []
                      && !(ls[0].term == "\r" && ls[1] == Line([], "\n"))
                      && WellFormed(ls[1..])))
  }

  /** Where the second line of `t` starts. */
  function NextLine(t: string): (k: nat)
    ensures k <= |t|
  {
    LineEnd(t, 0) + |TermAt(t, LineEnd(t, 0))|
  }

  /** The first line of `t`, as `Lines` cuts it. */
  function FirstLine(t: string): Line {
    Line(t[..LineEnd(t, 0)], TermAt(t, LineEnd(t, 0)))
  }

  /** The lines of a non-empty text: its first line, then the lines after it. */
  lemma LinesHead(t: string)
    requires t != []
    ensures Lines(t) == [FirstLine(t)] + Lines(t[NextLine(t)..])
  {
  }

  /** A text is its first line followed by the rest. */
  lemma SplitLine(t: string)
    ensures t == Full(FirstLine(t)) + t[NextLine(t)..]
  {
    var e := LineEnd(t, 0);
    TermAtSpec(t, e);
    SplitThree(t, e, NextLine(t));
  }

  lemma SplitThree(t: string, a: nat, b: nat)
    requires a <= b <= |t|
    ensures t == t[..a] + t[a..b] + t[b..]
  {
  }

  /** The first character of a text is the first character of its first line. */
  lemma LinesStart(t: string)
    requires t != []
    ensures Lines(t) != [] && Full(Lines(t)[0]) != [] && Full(Lines(t)[0])[0] == t[0]
  {
    LinesHead(t);
    SplitLine(t);
    assert t[0] == Full(FirstLine(t))[0];
  }

  /** The first line is a proper line, it is the last one when it has no
      terminator, and a lone `\r` that ends it is not followed by `\n`. */
  lemma FirstLineOk(t: string)
    requires t != []
    ensures LineOk(FirstLine(t))
    ensures FirstLine(t).term == [] ==> NextLine(t) == |t|
    ensures FirstLine(t).term == "\r" && NextLine(t) < |t| ==> t[NextLine(t)] != '\n'
  {
    var e := LineEnd(t, 0);
    LineEndSpec(t, 0);
    TermAtSpec(t, e);
    var body := FirstLine(t).body;
    forall k | 0 <= k < |body|
      ensures !IsLineTerminator(body[k])
    {
      assert body[k] == t[k];
    }
  }

  /** Splitting a text into lines and joining them gives the text back. */
  lemma {:induction false} JoinLines(t: string)
    ensures Join(Lines(t)) == t
    decreases |t|
  {
    if t != [] {
      var rest := t[NextLine(t)..];
      LinesHead(t);
      SplitLine(t);
      JoinLines(rest);
      JoinCons(FirstLine(t), Lines(rest));
    }
  }

  /** Every list of lines a text splits into is well formed. */
  lemma {:induction false} LinesWellFormed(t: string)
    ensures WellFormed(Lines(t))
    decreases |t|
  {
    if t != [] {
      var rest := t[NextLine(t)..];
      LinesHead(t);
      FirstLineOk(t);
      LinesWellFormed(rest);
      var ls := Lines(t);
      assert ls[1..] == Lines(rest);
      if rest != [] {
        LinesStart(rest);
        assert ls[1] == Lines(rest)[0];
        assert t[NextLine(t)] == rest[0];
      }
    }
  }

  /** The first character of the text of well-formed lines. */
  lemma JoinStart(ls: seq<Line>)
    requires ls != [] && LineOk(ls[0])
    ensures Join(ls) != [] && Join(ls)[0] == Full(ls[0])[0]
  {
  }

  /** A line in front of a text that does not continue its terminator is read
      back as that line. */
  lemma FirstLineOf(l: Line, j: string)
    requires LineOk(l)
    requires l.term == [] ==> j == []
    requires l.term == "\r" && j != [] ==> j[0] != '\n'
    ensures var x := Full(l) + j;
      FirstLine(x) == l && x[NextLine(x)..] == j
  {
    var x := Full(l) + j;
    var b := |l.body|;
    forall k | 0 <= k < b
      ensures !IsLineTerminator(x[k])
    {
      assert x[k] == l.body[k];
    }
    if l.term != [] {
      assert x[b] == l.term[0];
      if |l.term| == 2 {
        assert x[b + 1] == l.term[1];
      } else if b + 1 < |x| {
        assert x[b + 1] == j[0];
      }
    }
    LineEndIs(x, 0, b);
    assert x[..b] == l.body;
    assert TermAt(x, b) == l.term;
    assert x[b + |l.term|..] == j;
  }

  /** Joining well-formed lines and splitting the text gives the lines back. */
  lemma {:induction false} LinesJoin(ls: seq<Line>)
    requires WellFormed(ls)
    ensures Lines(Join(ls)) == ls
    decreases |ls|
  {
    if ls != [] {
      var j := Join(ls[1..]);
      var x := Full(ls[0]) + j;
      if |ls| > 1 {
        JoinStart(ls[1..]);
        LinesJoin(ls[1..]);
      }
      JoinCons(ls[0], ls[1..]);
      assert [ls[0]] + ls[1..] == ls;
      FirstLineOf(ls[0], j);
      LinesHead(x);
    }
  }

  /** `l` is a table row: `|`, at least one character, `|`. */
  predicate IsRowLine(l: Line) {
    |l.body| >= 3 && l.body[0] == '|' && l.body[|l.body| - 1] == '|'
  }

  /** `l` ends in what `(\r?\n)` captures. */
  predicate EndsInNewline(l: Line) {
    l.term == "\n" || l.term == "\r\n"
  }

  /** `l` starts with a character that is neither white space nor `|`. */
  predicate StartsWithText(l: Line) {
    l.body != [] && !IsSpace(l.body[0]) && l.body[0] != '|'
  }

  /** `l` is a table row whose newline is followed by a line that starts with
      text. */
  predicate BreaksBefore(l: Line, next: Line) {
    IsRowLine(l) && EndsInNewline(l) && StartsWithText(next)
  }

  /** The rewrite on lines: after a line that breaks, an empty line with the
      same newline. */
  function FixList(ls: seq<Line>): seq<Line>
    decreases |ls|
  {
    if ls == [] then []
    else if |ls| >= 2 && BreaksBefore(ls[0], ls[1]) then
      [ls[0]] + ([Line([], ls[0].term)] + FixList(ls[1..]))
    else [ls[0]] + FixList(ls[1..])
  }

  /** The rewrite described line by line. */
  function FixLines(t: string): string {
    Join(FixList(Lines(t)))
  }

  lemma FixListStart(ls: seq<Line>)
    requires ls != []
    ensures FixList(ls) != [] && FixList(ls)[0] == ls[0]
  {
  }

  /** No line of `ls` breaks. */
  predicate Settled(ls: seq<Line>) {
    forall k :: 0 <= k < |ls| - 1 ==> !BreaksBefore(ls[k], ls[k + 1])
  }

  /** After the rewrite no line breaks: each line that did is now followed by
      an empty one, and every other line keeps its successor. */
  lemma {:induction false} FixListSettles(ls: seq<Line>)
    ensures Settled(FixList(ls))
    decreases |ls|
  {
    if ls != [] {
      var rest := FixList(ls[1..]);
      FixListSettles(ls[1..]);
      if ls[1..] != [] {
        FixListStart(ls[1..]);
      }
      var r := FixList(ls);
      if |ls| >= 2 && BreaksBefore(ls[0], ls[1]) {
        assert r == [ls[0]] + ([Line([], ls[0].term)] + rest);
        forall k | 2 <= k < |r| - 1
          ensures !BreaksBefore(r[k], r[k + 1])
        {
          assert r[k] == rest[k - 2] && r[k + 1] == rest[k - 1];
        }
      } else {
        assert r == [ls[0]] + rest;
        forall k | 1 <= k < |r| - 1
          ensures !BreaksBefore(r[k], r[k + 1])
        {
          assert r[k] == rest[k - 1] && r[k + 1] == rest[k];
        }
      }
    }
  }

  /** Lines in which nothing breaks are left as they are. */
  lemma {:induction false} FixListKeeps(ls: seq<Line>)
    requires Settled(ls)
    ensures FixList(ls) == ls
    decreases |ls|
  {
    if ls != [] {
      var rest := ls[1..];
      forall k | 0 <= k < |rest| - 1
        ensures !BreaksBefore(rest[k], rest[k + 1])
      {
        assert rest[k] == ls[k + 1] && rest[k + 1] == ls[k + 2];
      }
      FixListKeeps(rest);
      assert ls == [ls[0]] + rest;
    }
  }

  /** The rewrite on lines is idempotent. */
  lemma FixListIdempotent(ls: seq<Line>)
    ensures FixList(FixList(ls)) == FixList(ls)
  {
    FixListSettles(ls);
    FixListKeeps(FixList(ls));
  }

  /** The rewrite keeps lines well formed: the empty line it inserts ends in a
      newline and follows a line that ends in one. */
  lemma {:induction false} FixListWellFormed(ls: seq<Line>)
    requires WellFormed(ls)
    ensures WellFormed(FixList(ls))
    decreases |ls|
  {
    if ls != [] {
      var rest := FixList(ls[1..]);
      if |ls| > 1 {
        FixListWellFormed(ls[1..]);
        FixListStart(ls[1..]);
      }
      var r := FixList(ls);
      if |ls| >= 2 && BreaksBefore(ls[0], ls[1]) {
        var blank := Line([], ls[0].term);
        assert r == [ls[0]] + ([blank] + rest);
        assert r[1..] == [blank] + rest;
        assert r[1..][1..] == rest;
        assert WellFormed(r[1..]);
      } else {
        assert r == [ls[0]] + rest;
        assert r[1..] == rest;
      }
    }
  }

  lemma JoinCons(l: Line, ls: seq<Line>)
    ensures Join([l] + ls) == Full(l) + Join(ls)
  {
    assert ([l] + ls)[1..] == ls;
  }

  /** The first line is a row exactly when the text starts with one. */
  lemma FirstLineRow(t: string)
    ensures IsRowLine(FirstLine(t)) <==> IsRow(t, 0, LineEnd(t, 0))
  {
    var e := LineEnd(t, 0);
    var body := FirstLine(t).body;
    if e >= 3 {
      assert body[0] == t[0] && body[e - 1] == t[e - 1];
    }
  }

  /** The first line ends in a newline exactly when `(\r?\n)` matches after
      it, and then that newline is its terminator. */
  lemma FirstLineNewline(t: string)
    ensures var e := LineEnd(t, 0);
      && (EndsInNewline(FirstLine(t)) <==> NewlineAt(t, e) != [])
      && (NewlineAt(t, e) != [] ==> NewlineAt(t, e) == TermAt(t, e))
  {
    TermAtSpec(t, LineEnd(t, 0));
  }

  /** The lines of a text start with text exactly when the look-aheads hold at
      its start. */
  lemma StartText(r: string)
    ensures (Lines(r) != [] && StartsWithText(Lines(r)[0])) <==> Ahead(r, 0)
  {
    if r != [] {
      LineEndSpec(r, 0);
      assert Lines(r)[0] == FirstLine(r);
      if LineEnd(r, 0) == 0 {
        LineTerminatorIsSpace(r[0]);
      } else {
        assert FirstLine(r).body[0] == r[0];
      }
    }
  }

  /** A line breaks when it is a row, `(\r?\n)` matches after it, and the
      look-aheads hold after its terminator. */
  lemma BreaksUnfold(t: string)
    requires TermAt(t, LineEnd(t, 0)) != []
    ensures var e := LineEnd(t, 0); var k := e + |TermAt(t, e)|;
      Breaks(t, 0) <==> IsRow(t, 0, e) && NewlineAt(t, e) != [] && Ahead(t, k)
  {
    TermAtSpec(t, LineEnd(t, 0));
  }

  /** A line followed by lines breaks exactly when it is a row ending in a
      newline and the lines after it start with text. */
  lemma BreaksBeforeUnfold(l: Line, r: seq<Line>)
    ensures (r != [] && BreaksBefore(l, r[0])) <==>
      IsRowLine(l) && EndsInNewline(l) && (r != [] && StartsWithText(r[0]))
  {
  }

  /** Whether the first line of a text breaks, read on its lines, is whether
      it breaks, read on the text. */
  lemma LineBreakAt(t: string)
    requires TermAt(t, LineEnd(t, 0)) != []
    ensures var r := Lines(t[NextLine(t)..]);
      (r != [] && BreaksBefore(FirstLine(t), r[0])) <==> Breaks(t, 0)
  {
    var k := NextLine(t);
    FirstLineRow(t);
    FirstLineNewline(t);
    StartText(t[k..]);
    SuffixShift(t, k, 0);
    BreaksUnfold(t);
    BreaksBeforeUnfold(FirstLine(t), Lines(t[k..]));
  }

  /** A line that breaks is followed by an empty line with its newline. */
  lemma FixListBreak(l: Line, r: seq<Line>)
    requires r != [] && BreaksBefore(l, r[0])
    ensures FixList([l] + r) == [l] + ([Line([], l.term)] + FixList(r))
  {
    assert ([l] + r)[1..] == r;
  }

  /** A line that does not break is followed by the rest. */
  lemma FixListNoBreak(l: Line, r: seq<Line>)
    requires !(r != [] && BreaksBefore(l, r[0]))
    ensures FixList([l] + r) == [l] + FixList(r)
  {
    assert ([l] + r)[1..] == r;
  }

  /** The rewrite on lines, one line at a time. */
  lemma JoinFixCons(l: Line, r: seq<Line>)
    ensures Join(FixList([l] + r)) ==
      Full(l) + (if r != [] && BreaksBefore(l, r[0]) then l.term else []) + Join(FixList(r))
  {
    var f := FixList(r);
    if r != [] && BreaksBefore(l, r[0]) {
      var blank := Line([], l.term);
      FixListBreak(l, r);
      JoinCons(l, [blank] + f);
      JoinCons(blank, f);
      assert Full(blank) == l.term;
      Assoc(Full(l), l.term, Join(f));
    } else {
      FixListNoBreak(l, r);
      JoinCons(l, f);
      assert Full(l) + [] == Full(l);
    }
  }

  /** The line-by-line rewrite over a first line that has a terminator: the
      line and its terminator, the newline once more if the line breaks, then
      the rest. */
  lemma FixLinesStep(t: string)
    requires t != [] && FirstLine(t).term != []
    ensures FixLines(t) ==
      Full(FirstLine(t)) + (if Breaks(t, 0) then FirstLine(t).term else []) + FixLines(t[NextLine(t)..])
  {
    LinesHead(t);
    LineBreakAt(t);
    JoinFixCons(FirstLine(t), Lines(t[NextLine(t)..]));
  }

  /** A last line without a terminator is copied. */
  lemma FixLinesLast(t: string)
    requires t != [] && FirstLine(t).term == []
    ensures FixLines(t) == t
  {
    LinesHead(t);
    SplitLine(t);
    assert t[NextLine(t)..] == [];
    assert Lines(t) == [FirstLine(t)];
    assert FixList(Lines(t)) == [FirstLine(t)];
    JoinCons(FirstLine(t), []);
  }

  /** The text up to the second line is the first line. */
  lemma FirstLinePrefix(t: string)
    ensures t[..NextLine(t)] == Full(FirstLine(t))
  {
    SplitLine(t);
  }

  /** The first line of a suffix is the line of the text at that position. */
  lemma ShiftLine(s: string, i: nat)
    requires i <= |s|
    ensures var t := s[i..]; var e := LineEnd(s, i); var q := e + |TermAt(s, e)|;
      && FirstLine(t).term == TermAt(s, e)
      && i + NextLine(t) == q
      && (Breaks(t, 0) <==> Breaks(s, i))
      && Full(FirstLine(t)) == s[i..q]
      && t[NextLine(t)..] == s[q..]
  {
    var t := s[i..];
    BreaksShift(s, i);
    FirstLinePrefix(t);
    var q := i + NextLine(t);
    assert t[..NextLine(t)] == s[i..q];
  }

  /** The scan and the line-by-line rewrite agree from every line start. */
  lemma {:induction false} ScanIsFixLines(s: string, i: nat)
    requires LineStart(s, i) && WellPlaced(s, Hits(s))
    ensures Scan(s, Hits(s), i) == FixLines(s[i..])
    decreases |s| - i
  {
    if i < |s| {
      var t := s[i..];
      ShiftLine(s, i);
      var e := LineEnd(s, i);
      if TermAt(s, e) == [] {
        ScanLast(s, i);
        FixLinesLast(t);
      } else {
        var q := e + |TermAt(s, e)|;
        NextLineStart(s, i);
        ScanIsFixLines(s, q);
        FixLinesStep(t);
        if Breaks(s, i) {
          ScanBreaks(s, i);
        } else {
          ScanCopies(s, i);
        }
      }
    }
  }

  /** `fixTableSpacing` is idempotent, as its documentation claims. */
  lemma Idempotent(s: string)
    ensures FixTableSpacing(FixTableSpacing(s)) == FixTableSpacing(s)
  {
    var u := FixTableSpacing(s);
    HitsWellPlaced(s);
    HitsWellPlaced(u);
    ScanIsFixLines(s, 0);
    ScanIsFixLines(u, 0);
    assert s[0..] == s && u[0..] == u;
    FixLinesIdempotent(s);
  }

  /** The line-by-line rewrite is idempotent. */
  lemma FixLinesIdempotent(t: string)
    ensures FixLines(FixLines(t)) == FixLines(t)
  {
    var ls := Lines(t);
    LinesWellFormed(t);
    FixListWellFormed(ls);
    LinesJoin(FixList(ls));
    FixListIdempotent(ls);
  }
}
