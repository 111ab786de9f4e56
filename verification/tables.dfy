/** `fixTableSpacing` of the markdown build script: every markdown table row that
    is followed, on the very next line, by text gets a blank line after it. The
    script does this with one global `replace` of the multi-line pattern
    `^(\|.+\|)(\r?\n)(?=\S)(?!\|)` by `$1$2$2`. Here the pattern is read
    character by character (`MatchesWith`); where it matches is settled on the
    original text, position by position (`Hits`), and the global replace is a
    left-to-right scan over those hits (`Scan`). */
module MarkdownTables {
  import opened Wrappers
  import opened Text

  /** Where `^` can match under the `m` flag: the start of the text or right
      after a line terminator. */
  predicate LineStart(s: string, i: nat) {
    i <= |s| && (i == 0 || IsLineTerminator(s[i - 1]))
  }

  /** What `(\r?\n)` captures at `k`, or nothing when it cannot match there. */
  function NewlineAt(s: string, k: nat): string {
    if k < |s| && s[k] == '\n' then "\n"
    else if k + 1 < |s| && s[k] == '\r' && s[k + 1] == '\n' then "\r\n"
    else []
  }

  lemma NewlineAtSpec(s: string, k: nat)
    ensures var r := NewlineAt(s, k);
      && (r == [] || r == "\n" || r == "\r\n")
      && (r != [] ==> k + |r| <= |s| && s[k..k + |r|] == r)
  {
  }

  /** The pattern read literally, with its closing `|` at `j`: `^` at `p`, a `|`,
      one or more characters `.` accepts, a `|`, the captured newline, then a
      character that is neither white space nor `|`. */
  predicate MatchesWith(s: string, p: nat, j: nat) {
    && LineStart(s, p)
    && p + 2 <= j < |s|
    && s[p] == '|' && s[j] == '|'
    && (forall k :: p < k < j ==> !IsLineTerminator(s[k]))
    && NewlineAt(s, j + 1) != []
    && Ahead(s, j + 1 + |NewlineAt(s, j + 1)|)
  }

  /** The two look-aheads `(?=\S)(?!\|)`. */
  predicate Ahead(s: string, q: nat) {
    q < |s| && !IsSpace(s[q]) && s[q] != '|'
  }

  /** The first line terminator at or after `k`, or the end of the text. */
  function LineEnd(s: string, k: nat): (r: nat)
    requires k <= |s|
    ensures k <= r <= |s|
    decreases |s| - k
  {
    if k == |s| || IsLineTerminator(s[k]) then k else LineEnd(s, k + 1)
  }

  lemma {:induction false} LineEndSpec(s: string, k: nat)
    requires k <= |s|
    ensures forall x :: k <= x < LineEnd(s, k) ==> !IsLineTerminator(s[x])
    ensures LineEnd(s, k) < |s| ==> IsLineTerminator(s[LineEnd(s, k)])
    decreases |s| - k
  {
    if k < |s| && !IsLineTerminator(s[k]) {
      LineEndSpec(s, k + 1);
    }
  }

  /** Any position with the two properties of `LineEnd` is it. */
  lemma LineEndIs(s: string, k: nat, m: nat)
    requires k <= m <= |s|
    requires forall x :: k <= x < m ==> !IsLineTerminator(s[x])
    requires m < |s| ==> IsLineTerminator(s[m])
    ensures LineEnd(s, k) == m
  {
    LineEndSpec(s, k);
  }

  /** The line starting at `i` is a table row: `|`, at least one character, `|`. */
  predicate IsRow(s: string, i: nat, e: nat)
    requires i <= e <= |s|
  {
    e >= i + 3 && s[i] == '|' && s[e - 1] == '|'
  }

  /** The line starting at `i` gets a blank line after it. */
  predicate Breaks(s: string, i: nat)
    requires i <= |s|
  {
    BreaksAt(s, i, LineEnd(s, i))
  }

  /** The line from `i` to `e` is a row, a newline follows it, and after that
      the look-aheads hold. */
  predicate BreaksAt(s: string, i: nat, e: nat)
    requires i <= e <= |s|
  {
    var nl := NewlineAt(s, e);
    IsRow(s, i, e) && nl != [] && Ahead(s, e + |nl|)
  }

  /** A match of the pattern: where its first group ends (the closing `|`) and
      what its second group captured (the newline). */
  datatype Hit = Hit(close: nat, newline: string)

  /** The match at `i`, if any: it closes at the last character of a line that
      breaks and captures the newline after that line. */
  function MatchAt(s: string, i: nat): Option<Hit> {
    if LineStart(s, i) && i < |s| && Breaks(s, i) then
      Some(Hit(LineEnd(s, i) - 1, NewlineAt(s, LineEnd(s, i))))
    else None
  }

  /** A match spans the row and its newline, all inside the text. */
  lemma MatchAtBound(s: string, i: nat)
    ensures MatchAt(s, i).Some? ==> Fits(s, i, MatchAt(s, i).value)
    ensures MatchAt(s, i).Some? ==> MatchAt(s, i).value.newline == NewlineAt(s, MatchAt(s, i).value.close + 1)
  {
    if MatchAt(s, i).Some? {
      NewlineAtSpec(s, LineEnd(s, i));
    }
  }

  /** A match at `i` holds a row of at least three characters and a newline,
      inside the text. */
  predicate Fits(s: string, i: nat, h: Hit) {
    i + 2 <= h.close && h.newline != [] && h.close + 1 + |h.newline| <= |s|
  }

  /** `MatchAt` finds a match exactly where the pattern, read literally, has one:
      only a line start can match, and at most one closing `|` works, the one
      right before the line's end. */
  lemma MatchAtSpec(s: string, i: nat)
    ensures MatchAt(s, i).Some? <==> exists j :: MatchesWith(s, i, j)
    ensures MatchAt(s, i).Some? ==> MatchesWith(s, i, MatchAt(s, i).value.close)
  {
    if MatchAt(s, i).Some? {
      var e := LineEnd(s, i);
      LineEndSpec(s, i);
      NewlineAtSpec(s, e);
      assert MatchesWith(s, i, e - 1);
    }
    forall j | MatchesWith(s, i, j)
      ensures MatchAt(s, i).Some?
    {
      MatchEndsLine(s, i, j);
    }
  }

  /** A match's closing `|` is the last character of its line. */
  lemma MatchEndsLine(s: string, i: nat, j: nat)
    requires MatchesWith(s, i, j)
    ensures LineEnd(s, i) == j + 1 && Breaks(s, i)
  {
    assert s[j + 1] == '\n' || s[j + 1] == '\r';
    LineEndIs(s, i, j + 1);
  }

  /** The pattern's hits, one per position of the text. The look-aheads read the
      original text, so every hit is settled before anything is replaced. */
  function Hits(s: string): (r: seq<Option<Hit>>)
    ensures |r| == |s|
  {
    seq(|s|, k requires 0 <= k < |s| => MatchAt(s, k))
  }

  /** Every hit fits in the text. */
  predicate WellPlaced(s: string, hits: seq<Option<Hit>>) {
    |hits| == |s| && forall k :: 0 <= k < |s| && hits[k].Some? ==> Fits(s, k, hits[k].value)
  }

  lemma HitsWellPlaced(s: string)
    ensures WellPlaced(s, Hits(s))
  {
    forall k | 0 <= k < |s|
      ensures Hits(s)[k].Some? ==> Fits(s, k, Hits(s)[k].value)
    {
      MatchAtBound(s, k);
    }
  }

  /** `content.replace(tableRegex, '$1$2$2')` from position `i` on: at a hit the
      match is copied with its newline doubled and the scan resumes after it;
      elsewhere one character is copied. */
  function Scan(s: string, hits: seq<Option<Hit>>, i: nat): string
    requires WellPlaced(s, hits) && i <= |s|
    decreases |s| - i
  {
    if i == |s| then []
    else match hits[i]
      case Some(h) =>
        var q := h.close + 1 + |h.newline|;
        s[i..q] + h.newline + Scan(s, hits, q)
      case None => [s[i]] + Scan(s, hits, i + 1)
  }

  /** `fixTableSpacing`. */
  function FixTableSpacing(s: string): string {
    HitsWellPlaced(s);
    Scan(s, Hits(s), 0)
  }

  /** The whole terminator at `e`: a CRLF pair, one terminator, or nothing at the
      end of the text. */
  function TermAt(s: string, e: nat): (r: string)
    requires e <= |s|
    ensures e + |r| <= |s| && (r == [] <==> e == |s|)
  {
    if e == |s| then []
    else if s[e] == '\r' && e + 1 < |s| && s[e + 1] == '\n' then "\r\n"
    else [s[e]]
  }

  lemma TermAtSpec(s: string, e: nat)
    requires e <= |s|
    ensures var r := TermAt(s, e);
      && s[e..e + |r|] == r
      && (r == [] <==> e == |s|)
      && (NewlineAt(s, e) != [] ==> r == NewlineAt(s, e))
  {
  }

  lemma Assoc(a: string, b: string, c: string)
    ensures a + (b + c) == (a + b) + c
  {
  }

  /** Positions without a hit are copied as they are. */
  lemma {:induction false} CopyUntil(s: string, hits: seq<Option<Hit>>, i: nat, m: nat)
    requires WellPlaced(s, hits) && i <= m <= |s|
    requires forall k :: i <= k < m ==> hits[k].None?
    ensures Scan(s, hits, i) == s[i..m] + Scan(s, hits, m)
    decreases m - i
  {
    if i < m {
      CopyUntil(s, hits, i + 1, m);
      assert s[i..m] == [s[i]] + s[i + 1..m];
      Assoc([s[i]], s[i + 1..m], Scan(s, hits, m));
    }
  }

  /** A line of a suffix ends where the line of the text ends. */
  lemma LineEndShift(s: string, i: nat)
    requires i <= |s|
    ensures LineEnd(s, i) == i + LineEnd(s[i..], 0)
  {
    var t := s[i..];
    LineEndSpec(t, 0);
    var e := LineEnd(t, 0);
    forall x | i <= x < i + e
      ensures !IsLineTerminator(s[x])
    {
      assert s[x] == t[x - i];
    }
    LineEndIs(s, i, i + e);
  }

  /** The newline, the terminator and the look-aheads at `k` in a suffix are
      those at `i + k` in the text. */
  lemma SuffixShift(s: string, i: nat, k: nat)
    requires i <= |s| && k <= |s| - i
    ensures NewlineAt(s[i..], k) == NewlineAt(s, i + k)
    ensures TermAt(s[i..], k) == TermAt(s, i + k)
    ensures Ahead(s[i..], k) <==> Ahead(s, i + k)
  {
  }

  /** Whether a line breaks does not depend on the text in front of it. */
  lemma BreaksAtShift(s: string, i: nat, e: nat)
    requires i <= e <= |s|
    ensures BreaksAt(s[i..], 0, e - i) <==> BreaksAt(s, i, e)
  {
    SuffixShift(s, i, e - i);
    var nl := NewlineAt(s, e);
    if e + |nl| <= |s| {
      SuffixShift(s, i, e - i + |nl|);
    }
    IsRowShift(s, i, e);
  }

  lemma IsRowShift(s: string, i: nat, e: nat)
    requires i <= e <= |s|
    ensures IsRow(s[i..], 0, e - i) <==> IsRow(s, i, e)
  {
    if e - i >= 3 {
      assert s[i..][0] == s[i] && s[i..][e - i - 1] == s[e - 1];
    }
  }

  /** Looking at a suffix is looking at the text from that position on. */
  lemma BreaksShift(s: string, i: nat)
    requires i <= |s|
    ensures LineEnd(s, i) == i + LineEnd(s[i..], 0)
    ensures NewlineAt(s[i..], LineEnd(s[i..], 0)) == NewlineAt(s, LineEnd(s, i))
    ensures TermAt(s[i..], LineEnd(s[i..], 0)) == TermAt(s, LineEnd(s, i))
    ensures Breaks(s[i..], 0) <==> Breaks(s, i)
  {
    LineEndShift(s, i);
    var e := LineEnd(s, i);
    SuffixShift(s, i, e - i);
    BreaksAtShift(s, i, e);
  }

  /** No hit inside a line: only line starts can match. */
  lemma NoHitInsideLine(s: string, i: nat)
    requires i <= |s|
    ensures forall k :: i < k < LineEnd(s, i) ==> MatchAt(s, k).None?
  {
    LineEndSpec(s, i);
    forall k | i < k < LineEnd(s, i)
      ensures MatchAt(s, k).None?
    {
      assert !IsLineTerminator(s[k - 1]);
    }
  }

  /** The positions of a line that does not break, its terminator included,
      hold no hit. */
  lemma NoHitInLine(s: string, i: nat)
    requires LineStart(s, i) && i < |s| && !Breaks(s, i)
    ensures var e := LineEnd(s, i);
      forall k :: i <= k < e + |TermAt(s, e)| ==> MatchAt(s, k).None?
  {
    var e := LineEnd(s, i);
    var q := e + |TermAt(s, e)|;
    NoHitInsideLine(s, i);
    LineEndSpec(s, i);
    TermAtSpec(s, e);
    forall k | i <= k < q
      ensures MatchAt(s, k).None?
    {
      if k == e && e > i {
        assert !IsLineTerminator(s[e - 1]);
      } else if k > e {
        assert s[k] == '\n';
      }
    }
  }

  /** At a line that breaks, the scan copies the row and its newline, adds the
      newline once more and goes on at the next line. */
  lemma ScanBreaks(s: string, i: nat)
    requires WellPlaced(s, Hits(s)) && LineStart(s, i) && i < |s| && Breaks(s, i)
    ensures var e := LineEnd(s, i); var q := e + |TermAt(s, e)|;
      Scan(s, Hits(s), i) == s[i..q] + TermAt(s, e) + Scan(s, Hits(s), q)
  {
    var e := LineEnd(s, i);
    var nl := NewlineAt(s, e);
    assert nl != [];
    TermAtSpec(s, e);
    assert TermAt(s, e) == nl;
    assert Hits(s)[i] == Some(Hit(e - 1, nl));
    ScanAtHit(s, Hits(s), i);
  }

  /** Away from a hit, the scan copies one character. */
  lemma ScanAtMiss(s: string, hits: seq<Option<Hit>>, i: nat)
    requires WellPlaced(s, hits) && i < |s| && hits[i].None?
    ensures Scan(s, hits, i) == [s[i]] + Scan(s, hits, i + 1)
  {
  }

  /** At a hit, the scan copies up to the end of the captured newline, repeats
      the newline and goes on after it. */
  lemma ScanAtHit(s: string, hits: seq<Option<Hit>>, i: nat)
    requires WellPlaced(s, hits) && i < |s| && hits[i].Some?
    ensures var h := hits[i].value; var q := h.close + 1 + |h.newline|;
      q <= |s| && Scan(s, hits, i) == s[i..q] + h.newline + Scan(s, hits, q)
  {
  }

  /** At a line that does not break, the scan copies the line and its
      terminator. */
  lemma ScanCopies(s: string, i: nat)
    requires WellPlaced(s, Hits(s)) && LineStart(s, i) && i < |s| && !Breaks(s, i)
    ensures var e := LineEnd(s, i); var q := e + |TermAt(s, e)|;
      Scan(s, Hits(s), i) == s[i..q] + Scan(s, Hits(s), q)
  {
    var e := LineEnd(s, i);
    NoHitInLine(s, i);
    CopyUntil(s, Hits(s), i, e + |TermAt(s, e)|);
  }

  /** The scan copies a last line that has no terminator. */
  lemma ScanLast(s: string, i: nat)
    requires WellPlaced(s, Hits(s)) && LineStart(s, i) && i < |s|
    requires TermAt(s, LineEnd(s, i)) == []
    ensures Scan(s, Hits(s), i) == s[i..]
  {
    NoHitInsideLine(s, i);
    assert Hits(s)[i].None?;
    CopyUntil(s, Hits(s), i, |s|);
  }

  /** The next line starts after the terminator. */
  lemma NextLineStart(s: string, i: nat)
    requires i <= |s| && TermAt(s, LineEnd(s, i)) != []
    ensures LineStart(s, LineEnd(s, i) + |TermAt(s, LineEnd(s, i))|)
  {
    LineEndSpec(s, i);
  }

  /** The text is never shorter afterwards. */
  lemma {:induction false} ScanLength(s: string, hits: seq<Option<Hit>>, i: nat)
    requires WellPlaced(s, hits) && i <= |s|
    ensures |Scan(s, hits, i)| >= |s| - i
    decreases |s| - i
  {
    if i < |s| {
      match hits[i]
      case Some(h) =>
        ScanLength(s, hits, h.close + 1 + |h.newline|);
      case None =>
        ScanLength(s, hits, i + 1);
    }
  }

  /** A hit anywhere ahead makes the text longer. */
  lemma {:induction false} ScanLonger(s: string, hits: seq<Option<Hit>>, i: nat, p: nat)
    requires WellPlaced(s, hits) && i <= p < |s| && hits[p].Some?
    ensures |Scan(s, hits, i)| > |s| - i
    decreases |s| - i
  {
    match hits[i]
    case Some(h) =>
      ScanLength(s, hits, h.close + 1 + |h.newline|);
    case None =>
      ScanLonger(s, hits, i + 1, p);
  }

  /** The rewrite changes the text exactly when the pattern matches somewhere. */
  lemma Unchanged(s: string)
    ensures FixTableSpacing(s) == s <==> forall p: nat, j: nat :: !MatchesWith(s, p, j)
  {
    var hits := Hits(s);
    HitsWellPlaced(s);
    if forall p: nat, j: nat :: !MatchesWith(s, p, j) {
      forall k | 0 <= k < |s|
        ensures hits[k].None?
      {
        MatchAtSpec(s, k);
      }
      CopyUntil(s, hits, 0, |s|);
      assert s[0..|s|] == s;
    } else {
      var p: nat, j: nat :| MatchesWith(s, p, j);
      MatchAtSpec(s, p);
      assert hits[p].Some?;
      ScanLonger(s, hits, 0, p);
    }
  }

  /** A text in which no line starts with `|` is returned as it is. */
  lemma NoRowNoChange(s: string)
    requires forall p :: 0 <= p < |s| && LineStart(s, p) ==> s[p] != '|'
    ensures FixTableSpacing(s) == s
  {
    Unchanged(s);
  }

  /** `a` is what is left of `b` after deleting some of its characters. */
  predicate Embeds(a: string, b: string)
    decreases |b|
  {
    a == [] || (b != [] && ((a[0] == b[0] && Embeds(a[1..], b[1..])) || Embeds(a, b[1..])))
  }

  lemma {:induction false} EmbedsAfter(a: string, b: string, z: string)
    requires Embeds(a, b)
    ensures Embeds(a, z + b)
    decreases |z|
  {
    if z != [] && a != [] {
      EmbedsAfter(a, b, z[1..]);
      assert (z + b)[1..] == z[1..] + b;
      assert Embeds(a, (z + b)[1..]);
    } else if z == [] {
      assert z + b == b;
    }
  }

  lemma {:induction false} EmbedsCommonPrefix(x: string, a: string, b: string)
    requires Embeds(a, b)
    ensures Embeds(x + a, x + b)
    decreases |x|
  {
    if x != [] {
      EmbedsCommonPrefix(x[1..], a, b);
      assert (x + a)[1..] == x[1..] + a;
      assert (x + b)[1..] == x[1..] + b;
      assert (x + a)[0] == (x + b)[0];
    } else {
      assert x + a == a && x + b == b;
    }
  }

  /** Inserting `z` between a common prefix and an embedding keeps the embedding. */
  lemma EmbedsInsert(x: string, y: string, z: string, r: string)
    requires Embeds(y, r)
    ensures Embeds(x + y, x + z + r)
  {
    EmbedsAfter(y, r, z);
    EmbedsCommonPrefix(x, y, z + r);
    Assoc(x, z, r);
  }

  /** The rewrite only inserts: deleting the inserted newlines gives the input
      back. */
  lemma {:induction false} OnlyInserts(s: string, hits: seq<Option<Hit>>, i: nat)
    requires WellPlaced(s, hits) && i <= |s|
    ensures Embeds(s[i..], Scan(s, hits, i))
    decreases |s| - i
  {
    if i < |s| {
      if hits[i].Some? {
        var h := hits[i].value;
        var q := h.close + 1 + |h.newline|;
        ScanAtHit(s, hits, i);
        OnlyInserts(s, hits, q);
        EmbedsInsert(s[i..q], s[q..], h.newline, Scan(s, hits, q));
        assert s[i..] == s[i..q] + s[q..];
      } else {
        ScanAtMiss(s, hits, i);
        OnlyInserts(s, hits, i + 1);
        EmbedsCommonPrefix([s[i]], s[i + 1..], Scan(s, hits, i + 1));
        assert s[i..] == [s[i]] + s[i + 1..];
      }
    }
  }

  /** Deleting the inserted newlines from `fixTableSpacing`'s result gives its
      input back. */
  lemma FixOnlyInserts(s: string)
    ensures Embeds(s, FixTableSpacing(s))
  {
    HitsWellPlaced(s);
    OnlyInserts(s, Hits(s), 0);
    assert s[0..] == s;
  }
}
