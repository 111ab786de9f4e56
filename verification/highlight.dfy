/** The string side of search highlighting in the note viewer: turning the query
    into terms, escaping a term for the regular-expression engine, and wrapping
    every case-insensitive occurrence of a term in a highlight marker.

    Two versions of the per-text-node rewrite live here. `MarkTextAsWritten`
    follows the component: each term is applied to the string the previous terms
    produced, markup included. `MarkText` applies each term only to text that no
    earlier term highlighted, keeping the result as segments; it is the version
    the node pass uses, and for a single term the two agree. */
module Highlight {
  import opened Wrappers
  import opened Text

  /** The opening and closing tags wrapped around a match (`$1` in between). */
  const Open: string := "<mark class=\"search-highlight\">"
  const Close: string := "</mark>"

  /** Case folding of the `i` flag (without `u`) on ASCII letters. */
  function Fold(c: char): char {
    if 'A' <= c <= 'Z' then (c as int + 32) as char else c
  }

  /** `a` and `b` are equal up to case. */
  predicate SameFold(a: string, b: string) {
    |a| == |b| && forall k :: 0 <= k < |a| ==> Fold(a[k]) == Fold(b[k])
  }

  /** The term `w` matches `s` at its start. */
  predicate MatchesHere(s: string, w: string) {
    |w| <= |s| && SameFold(s[..|w|], w)
  }

  /** A term does not match where the first characters already differ. */
  lemma FirstCharMismatch(s: string, w: string)
    requires s != [] && w != [] && Fold(s[0]) != Fold(w[0])
    ensures !MatchesHere(s, w)
  {
    if |w| <= |s| {
      assert s[..|w|][0] == s[0];
    }
  }

  /** `regex.test(s)` for the literal, case-insensitive pattern of `w`. */
  predicate Found(s: string, w: string)
    decreases |s|
  {
    MatchesHere(s, w) || (s != [] && Found(s[1..], w))
  }

  /** The characters `word.replace(/[.*+?^${}()|[\]\\]/g, '\\$&')` escapes. */
  predicate IsRegexSyntax(c: char) {
    c in ".*+?^${}()|[]\\"
  }

  /** Backslash-prefixes every regular-expression syntax character of `w`. */
  function EscapeRegex(w: string): (p: string)
    ensures |p| >= |w|
  {
    if w == [] then []
    else (if IsRegexSyntax(w[0]) then ['\\', w[0]] else [w[0]]) + EscapeRegex(w[1..])
  }

  /** The string a pattern made of plain characters and escaped syntax characters
      matches literally; `None` when the pattern has an unescaped syntax character
      or a backslash that does not escape one. */
  function LiteralOf(p: string): Option<string>
    decreases |p|
  {
    if p == [] then Some([])
    else if p[0] == '\\' then
      if |p| >= 2 && IsRegexSyntax(p[1]) then
        match LiteralOf(p[2..])
        case Some(rest) => Some([p[1]] + rest)
        case None => None
      else None
    else if IsRegexSyntax(p[0]) then None
    else
      match LiteralOf(p[1..])
      case Some(rest) => Some([p[0]] + rest)
      case None => None
  }

  /** An escaped term is a pure literal pattern, and the literal it matches is the
      term itself: no character of the term keeps a special meaning. */
  lemma {:induction false} EscapeIsLiteral(w: string)
    ensures LiteralOf(EscapeRegex(w)) == Some(w)
  {
    if w != [] {
      EscapeIsLiteral(w[1..]);
      var rest := EscapeRegex(w[1..]);
      if IsRegexSyntax(w[0]) {
        assert EscapeRegex(w) == ['\\', w[0]] + rest;
        assert (['\\', w[0]] + rest)[2..] == rest;
      } else {
        assert EscapeRegex(w) == [w[0]] + rest;
        assert ([w[0]] + rest)[1..] == rest;
        assert w[0] != '\\';
      }
      assert w == [w[0]] + w[1..];
    }
  }

  /** The words of the query worth highlighting: at least two characters long. */
  function LongWords(words: seq<string>): (r: seq<string>)
    ensures forall k :: 0 <= k < |r| ==> |r[k]| >= 2 && r[k] in words
    ensures forall k :: 0 <= k < |words| && |words[k]| >= 2 ==> words[k] in r
  {
    if words == [] then []
    else (if |words[0]| >= 2 then [words[0]] else []) + LongWords(words[1..])
  }

  /** `query.trim().split(/\s+/)` without the words shorter than two characters. */
  function Terms(query: string): seq<string> {
    LongWords(SplitOnSpaces(Trim(query)))
  }

  /** Every term is at least two characters long and free of white space, every
      such word of the query is a term, and a blank query has no terms. */
  lemma TermsSpec(query: string)
    ensures var ts := Terms(query);
      && (forall k :: 0 <= k < |ts| ==> |ts[k]| >= 2 && NoSpace(ts[k]))
      && (forall w :: w in SplitOnSpaces(Trim(query)) && |w| >= 2 ==> w in ts)
      && (AllSpace(query) ==> ts == [])
  {
    TermsAreWords(query);
    TermsOfBlank(query);
  }

  lemma TermsAreWords(query: string)
    ensures var ts := Terms(query);
      && (forall k :: 0 <= k < |ts| ==> |ts[k]| >= 2 && NoSpace(ts[k]))
      && (forall w :: w in SplitOnSpaces(Trim(query)) && |w| >= 2 ==> w in ts)
  {
    SplitRunSpec(Trim(query), false);
  }

  lemma TermsOfBlank(query: string)
    ensures AllSpace(query) ==> Terms(query) == []
  {
    if AllSpace(query) {
      TrimKeepsInk(query);
      assert SplitOnSpaces(Trim(query)) == [[]];
    }
  }

  /** `s.replace(/(w)/gi, Open + '$1' + Close)`: scanning left to right, every
      case-insensitive occurrence of `w` is wrapped, keeping its own casing, and
      the scan resumes after it. */
  function MarkAll(s: string, w: string): string
    requires w != []
    decreases |s|
  {
    if |s| < |w| then s
    else if MatchesHere(s, w) then Open + s[..|w|] + Close + MarkAll(s[|w|..], w)
    else [s[0]] + MarkAll(s[1..], w)
  }

  /** A piece of a highlighted text node: left alone, or wrapped in a marker. */
  datatype Segment = Plain(text: string) | Hit(text: string)

  /** The markup the segments stand for. */
  function Render(segs: seq<Segment>): string {
    if segs == [] then []
    else
      (match segs[0]
       case Plain(t) => t
       case Hit(t) => Open + t + Close) + Render(segs[1..])
  }

  /** The text the segments hold, markers removed. */
  function Texts(segs: seq<Segment>): string {
    if segs == [] then [] else segs[0].text + Texts(segs[1..])
  }

  predicate HasHit(segs: seq<Segment>) {
    exists k :: 0 <= k < |segs| && segs[k].Hit?
  }

  /** Puts `c` in front, joining a leading plain segment. */
  function ConsPlain(c: char, segs: seq<Segment>): seq<Segment> {
    if segs != [] && segs[0].Plain? then [Plain([c] + segs[0].text)] + segs[1..]
    else [Plain([c])] + segs
  }

  lemma ConsPlainSpec(c: char, segs: seq<Segment>)
    ensures Render(ConsPlain(c, segs)) == [c] + Render(segs)
    ensures Texts(ConsPlain(c, segs)) == [c] + Texts(segs)
    ensures HasHit(ConsPlain(c, segs)) <==> HasHit(segs)
  {
    var r := ConsPlain(c, segs);
    if segs != [] && segs[0].Plain? {
      assert r[1..] == segs[1..];
      assert forall k :: 1 <= k < |r| ==> r[k] == segs[k];
    } else {
      assert r[1..] == segs;
      assert forall k :: 1 <= k < |r| ==> r[k] == segs[k - 1];
    }
  }

  /** The text of a leading plain segment, which `ConsPlain` joins. */
  function LeadText(segs: seq<Segment>): string {
    if segs != [] && segs[0].Plain? then segs[0].text else []
  }

  lemma LeadTextIsPrefix(segs: seq<Segment>)
    ensures |LeadText(segs)| <= |Texts(segs)| && Texts(segs)[..|LeadText(segs)|] == LeadText(segs)
  {
    if segs != [] {
      assert Texts(segs) == segs[0].text + Texts(segs[1..]);
    }
  }

  /** `ConsPlain` adds no match and keeps every match of `segs`. */
  lemma ConsPlainHits(c: char, segs: seq<Segment>, w: string)
    requires forall k :: 0 <= k < |segs| && segs[k].Hit? ==> SameFold(segs[k].text, w)
    ensures forall k :: 0 <= k < |ConsPlain(c, segs)| && ConsPlain(c, segs)[k].Hit? ==> SameFold(ConsPlain(c, segs)[k].text, w)
  {
    var r := ConsPlain(c, segs);
    if segs != [] && segs[0].Plain? {
      assert forall k :: 1 <= k < |r| ==> r[k] == segs[k];
    } else {
      assert forall k :: 1 <= k < |r| ==> r[k] == segs[k - 1];
    }
  }

  /** The plain pieces after `ConsPlain` are the joined leading piece and the
      plain pieces of `segs`. */
  lemma ConsPlainPlains(c: char, segs: seq<Segment>, v: string)
    requires forall k :: 0 <= k < |segs| && segs[k].Plain? ==> !Found(segs[k].text, v)
    requires !Found([c] + LeadText(segs), v)
    ensures forall k :: 0 <= k < |ConsPlain(c, segs)| && ConsPlain(c, segs)[k].Plain? ==> !Found(ConsPlain(c, segs)[k].text, v)
  {
    var r := ConsPlain(c, segs);
    if segs != [] && segs[0].Plain? {
      assert forall k :: 1 <= k < |r| ==> r[k] == segs[k];
    } else {
      assert forall k :: 1 <= k < |r| ==> r[k] == segs[k - 1];
    }
  }

  /** The same scan as `MarkAll`, keeping what it found as segments. */
  function SplitTerm(s: string, w: string): seq<Segment>
    requires w != []
    decreases |s|
  {
    if |s| < |w| then (if s == [] then [] else [Plain(s)])
    else if MatchesHere(s, w) then [Hit(s[..|w|])] + SplitTerm(s[|w|..], w)
    else ConsPlain(s[0], SplitTerm(s[1..], w))
  }

  /** Splitting by one term renders to exactly what the component's replace
      produces, loses no text, wraps only case-insensitive copies of the term,
      and wraps something exactly when `regex.test` succeeds. */
  lemma {:induction false} SplitTermSpec(s: string, w: string)
    requires w != []
    ensures Render(SplitTerm(s, w)) == MarkAll(s, w)
    ensures Texts(SplitTerm(s, w)) == s
    ensures forall k :: 0 <= k < |SplitTerm(s, w)| && SplitTerm(s, w)[k].Hit? ==> SameFold(SplitTerm(s, w)[k].text, w)
    ensures HasHit(SplitTerm(s, w)) <==> Found(s, w)
    decreases |s|
  {
    if |s| < |w| {
      NotFoundWhenShort(s, w);
    } else if MatchesHere(s, w) {
      SplitTermSpec(s[|w|..], w);
      SplitHitStep(s, w);
    } else {
      SplitTermSpec(s[1..], w);
      SplitPlainStep(s, w);
    }
  }

  /** What `SplitTermSpec` states about `SplitTerm(s, w)`. */
  predicate SplitAgrees(s: string, w: string)
    requires w != []
  {
    var r := SplitTerm(s, w);
    && Render(r) == MarkAll(s, w)
    && Texts(r) == s
    && (forall k :: 0 <= k < |r| && r[k].Hit? ==> SameFold(r[k].text, w))
    && (HasHit(r) <==> Found(s, w))
  }

  /** A match at the start becomes a marked segment in front of the rest. */
  lemma SplitHitStep(s: string, w: string)
    requires w != [] && |s| >= |w| && MatchesHere(s, w)
    requires SplitAgrees(s[|w|..], w)
    ensures SplitAgrees(s, w)
  {
    var r := SplitTerm(s, w);
    var rest := SplitTerm(s[|w|..], w);
    assert r == [Hit(s[..|w|])] + rest;
    assert r[1..] == rest;
    assert forall k :: 1 <= k < |r| ==> r[k] == rest[k - 1];
    assert s == s[..|w|] + s[|w|..];
    assert r[0].Hit?;
  }

  /** No match at the start: the first character joins the plain text in front. */
  lemma SplitPlainStep(s: string, w: string)
    requires w != [] && |s| >= |w| && !MatchesHere(s, w)
    requires SplitAgrees(s[1..], w)
    ensures SplitAgrees(s, w)
  {
    var rest := SplitTerm(s[1..], w);
    ConsPlainSpec(s[0], rest);
    ConsPlainHits(s[0], rest, w);
    assert s == [s[0]] + s[1..];
  }


  lemma {:induction false} NotFoundWhenShort(s: string, w: string)
    requires |s| < |w|
    ensures !Found(s, w)
    decreases |s|
  {
    if s != [] {
      NotFoundWhenShort(s[1..], w);
    }
  }

  /** Applies a term to the plain segments only; highlighted segments are kept. */
  function ApplyTerm(segs: seq<Segment>, w: string): seq<Segment>
    requires w != []
  {
    if segs == [] then []
    else
      (match segs[0]
       case Plain(t) => SplitTerm(t, w)
       case Hit(t) => [segs[0]]) + ApplyTerm(segs[1..], w)
  }

  /** Highlights each term in turn, never inside an earlier term's highlight. */
  function MarkText(text: string, terms: seq<string>): seq<Segment>
    requires forall k :: 0 <= k < |terms| ==> terms[k] != []
  {
    MarkSegments([Plain(text)], terms)
  }

  function MarkSegments(segs: seq<Segment>, terms: seq<string>): seq<Segment>
    requires forall k :: 0 <= k < |terms| ==> terms[k] != []
    decreases |terms|
  {
    if terms == [] then segs else MarkSegments(ApplyTerm(segs, terms[0]), terms[1..])
  }

  lemma TextsAppend(a: seq<Segment>, b: seq<Segment>)
    ensures Texts(a + b) == Texts(a) + Texts(b)
  {
    if a != [] {
      assert (a + b)[1..] == a[1..] + b;
    } else {
      assert a + b == b;
    }
  }

  predicate HitsMatchSome(segs: seq<Segment>, terms: seq<string>) {
    forall k :: 0 <= k < |segs| && segs[k].Hit? ==> exists j :: 0 <= j < |terms| && SameFold(segs[k].text, terms[j])
  }

  lemma {:induction false} ApplyTermSpec(segs: seq<Segment>, w: string, terms: seq<string>)
    requires w != [] && w in terms
    requires HitsMatchSome(segs, terms)
    ensures Texts(ApplyTerm(segs, w)) == Texts(segs)
    ensures HitsMatchSome(ApplyTerm(segs, w), terms)
  {
    if segs != [] {
      ApplyTermSpec(segs[1..], w, terms);
      var head: seq<Segment> := match segs[0] case Plain(t) => SplitTerm(t, w) case Hit(t) => [segs[0]];
      var tail := ApplyTerm(segs[1..], w);
      assert ApplyTerm(segs, w) == head + tail;
      TextsAppend(head, tail);
      if segs[0].Plain? {
        SplitTermSpec(segs[0].text, w);
      }
      var r := head + tail;
      forall k | 0 <= k < |r| && r[k].Hit?
        ensures exists j :: 0 <= j < |terms| && SameFold(r[k].text, terms[j])
      {
        if k < |head| {
          if segs[0].Plain? {
            var j :| 0 <= j < |terms| && terms[j] == w;
            assert SameFold(r[k].text, terms[j]);
          } else {
            assert r[k] == segs[0];
          }
        } else {
          assert r[k] == tail[k - |head|];
        }
      }
    }
  }

  lemma {:induction false} MarkSegmentsSpec(segs: seq<Segment>, terms: seq<string>, all: seq<string>)
    requires forall k :: 0 <= k < |terms| ==> terms[k] != [] && terms[k] in all
    requires HitsMatchSome(segs, all)
    ensures Texts(MarkSegments(segs, terms)) == Texts(segs)
    ensures HitsMatchSome(MarkSegments(segs, terms), all)
    decreases |terms|
  {
    if terms != [] {
      ApplyTermSpec(segs, terms[0], all);
      MarkSegmentsSpec(ApplyTerm(segs, terms[0]), terms[1..], all);
    }
  }

  /** Highlighting only adds markers: removing them gives back the text node's
      text, and every highlighted piece is a case-insensitive copy of a term. */
  lemma MarkTextKeepsText(text: string, terms: seq<string>)
    requires forall k :: 0 <= k < |terms| ==> terms[k] != []
    ensures Texts(MarkText(text, terms)) == text
    ensures HitsMatchSome(MarkText(text, terms), terms)
  {
    assert Texts([Plain(text)]) == text;
    MarkSegmentsSpec([Plain(text)], terms, terms);
  }

  /** The per-node loop as the component runs it: each term whose regex finds a
      match in the current string rewrites that string; `hasMatch` records
      whether any did. */
  function MarkTextAsWritten(text: string, terms: seq<string>): (string, bool)
    requires forall k :: 0 <= k < |terms| ==> terms[k] != []
  {
    MarkStringAsWritten(text, false, terms)
  }

  function MarkStringAsWritten(s: string, hasMatch: bool, terms: seq<string>): (string, bool)
    requires forall k :: 0 <= k < |terms| ==> terms[k] != []
    decreases |terms|
  {
    if terms == [] then (s, hasMatch)
    else if Found(s, terms[0]) then MarkStringAsWritten(MarkAll(s, terms[0]), true, terms[1..])
    else MarkStringAsWritten(s, hasMatch, terms[1..])
  }

  lemma ApplyTermToOnePlain(t: string, w: string)
    requires w != []
    ensures ApplyTerm([Plain(t)], w) == SplitTerm(t, w)
  {
    assert ApplyTerm([Plain(t)], w) == SplitTerm(t, w) + ApplyTerm([], w);
  }

  /** Some term occurs in `text`: `hasMatch` in the component's terms. */
  predicate Occurs(text: string, terms: seq<string>) {
    exists k :: 0 <= k < |terms| && Found(text, terms[k])
  }

  /** As written, `hasMatch` ends up true exactly when some term occurs in the
      node's original text: the first term that occurs sets it, and no rewrite
      happens before that. */
  lemma AsWrittenHasMatch(text: string, terms: seq<string>)
    requires forall k :: 0 <= k < |terms| ==> terms[k] != []
    ensures MarkTextAsWritten(text, terms).1 <==> Occurs(text, terms)
  {
    AsWrittenFlag(text, false, terms);
  }

  lemma {:induction false} AsWrittenFlag(s: string, hasMatch: bool, terms: seq<string>)
    requires forall k :: 0 <= k < |terms| ==> terms[k] != []
    ensures MarkStringAsWritten(s, hasMatch, terms).1 <==> hasMatch || Occurs(s, terms)
    decreases |terms|
  {
    if terms != [] {
      var rest := terms[1..];
      if Found(s, terms[0]) {
        AsWrittenFlag(MarkAll(s, terms[0]), true, rest);
      } else {
        AsWrittenFlag(s, hasMatch, rest);
        if Occurs(s, terms) {
          var k :| 0 <= k < |terms| && Found(s, terms[k]);
          assert rest[k - 1] == terms[k];
        }
        if Occurs(s, rest) {
          var k :| 0 <= k < |rest| && Found(s, rest[k]);
          assert terms[k + 1] == rest[k];
        }
      }
    }
  }

  /** Some plain segment contains `w`. */
  predicate PlainHas(segs: seq<Segment>, w: string) {
    exists i :: 0 <= i < |segs| && segs[i].Plain? && Found(segs[i].text, w)
  }

  lemma HasHitAppend(a: seq<Segment>, b: seq<Segment>)
    ensures HasHit(a + b) <==> HasHit(a) || HasHit(b)
  {
    if HasHit(a) {
      var i :| 0 <= i < |a| && a[i].Hit?;
      assert (a + b)[i] == a[i];
    }
    if HasHit(a + b) {
      var i :| 0 <= i < |a + b| && (a + b)[i].Hit?;
      if i >= |a| {
        assert b[i - |a|] == (a + b)[i];
      }
    }
    if HasHit(b) {
      var i :| 0 <= i < |b| && b[i].Hit?;
      assert (a + b)[|a| + i] == b[i];
    }
  }

  lemma PlainHasAppend(a: seq<Segment>, b: seq<Segment>, w: string)
    ensures PlainHas(a + b, w) <==> PlainHas(a, w) || PlainHas(b, w)
  {
    if PlainHas(a, w) {
      var i :| 0 <= i < |a| && a[i].Plain? && Found(a[i].text, w);
      assert (a + b)[i] == a[i];
    }
    if PlainHas(a + b, w) {
      var i :| 0 <= i < |a + b| && (a + b)[i].Plain? && Found((a + b)[i].text, w);
      if i >= |a| {
        assert b[i - |a|] == (a + b)[i];
      }
    }
    if PlainHas(b, w) {
      var i :| 0 <= i < |b| && b[i].Plain? && Found(b[i].text, w);
      assert (a + b)[|a| + i] == b[i];
    }
  }

  /** A text without the term splits into at most one plain piece. */
  lemma {:induction false} SplitTermNoMatch(t: string, w: string)
    requires w != [] && !Found(t, w)
    ensures SplitTerm(t, w) == if t == [] then [] else [Plain(t)]
    decreases |t|
  {
    if |t| >= |w| {
      assert !MatchesHere(t, w) && !Found(t[1..], w);
      SplitTermNoMatch(t[1..], w);
      assert SplitTerm(t, w) == ConsPlain(t[0], SplitTerm(t[1..], w));
      assert [t[0]] + t[1..] == t;
      if t[1..] == [] {
        assert t == [t[0]];
      }
    }
  }

  /** Applying a term gives a hit exactly when there was one, or the term
      occurs in a plain segment. */
  lemma {:induction false} ApplyTermHits(segs: seq<Segment>, w: string)
    requires w != []
    ensures HasHit(ApplyTerm(segs, w)) <==> HasHit(segs) || PlainHas(segs, w)
  {
    if segs != [] {
      var head := match segs[0] case Plain(t) => SplitTerm(t, w) case Hit(_) => [segs[0]];
      assert ApplyTerm(segs, w) == head + ApplyTerm(segs[1..], w);
      HasHitAppend(head, ApplyTerm(segs[1..], w));
      ApplyTermHits(segs[1..], w);
      assert segs == [segs[0]] + segs[1..];
      HasHitAppend([segs[0]], segs[1..]);
      PlainHasAppend([segs[0]], segs[1..], w);
      if segs[0].Plain? {
        SplitTermSpec(segs[0].text, w);
        assert PlainHas([segs[0]], w) <==> Found(segs[0].text, w);
      } else {
        assert HasHit(head) by { assert head[0].Hit?; }
      }
    }
  }

  /** A term found in no plain segment leaves the plain texts as they were, up
      to dropping empty ones, so no other term's occurrences change. */
  lemma {:induction false} ApplyTermKeepsPlains(segs: seq<Segment>, w: string, v: string)
    requires w != [] && v != [] && !PlainHas(segs, w)
    ensures PlainHas(ApplyTerm(segs, w), v) <==> PlainHas(segs, v)
  {
    if segs != [] {
      var head := match segs[0] case Plain(t) => SplitTerm(t, w) case Hit(_) => [segs[0]];
      assert ApplyTerm(segs, w) == head + ApplyTerm(segs[1..], w);
      assert segs == [segs[0]] + segs[1..];
      PlainHasAppend([segs[0]], segs[1..], w);
      PlainHasAppend([segs[0]], segs[1..], v);
      PlainHasAppend(head, ApplyTerm(segs[1..], w), v);
      ApplyTermKeepsPlains(segs[1..], w, v);
      if segs[0].Plain? {
        assert !PlainHas([segs[0]], w);
        assert [segs[0]][0] == segs[0];
        SplitTermNoMatch(segs[0].text, w);
        if segs[0].text == [] {
          assert !Found(segs[0].text, v);
          assert !PlainHas([segs[0]], v);
        } else {
          assert head == [segs[0]];
        }
      }
    }
  }

  /** Marking all terms gives a hit exactly when there was one, or some term
      occurs in a plain segment. */
  lemma {:induction false} MarkSegmentsHits(segs: seq<Segment>, terms: seq<string>)
    requires forall k :: 0 <= k < |terms| ==> terms[k] != []
    ensures HasHit(MarkSegments(segs, terms)) <==>
      HasHit(segs) || exists k :: 0 <= k < |terms| && PlainHas(segs, terms[k])
    decreases |terms|
  {
    if terms != [] {
      var rest := terms[1..];
      var s1 := ApplyTerm(segs, terms[0]);
      ApplyTermHits(segs, terms[0]);
      MarkSegmentsHits(s1, rest);
      if PlainHas(segs, terms[0]) {
        assert HasHit(s1);
        assert MarkSegments(segs, terms) == MarkSegments(s1, rest);
        MarkSegmentsKeepsHit(s1, rest);
      } else {
        forall k | 0 <= k < |rest|
          ensures PlainHas(s1, rest[k]) <==> PlainHas(segs, rest[k])
        {
          ApplyTermKeepsPlains(segs, terms[0], rest[k]);
        }
        if exists k :: 0 <= k < |terms| && PlainHas(segs, terms[k]) {
          var k :| 0 <= k < |terms| && PlainHas(segs, terms[k]);
          assert rest[k - 1] == terms[k];
        }
        if exists k :: 0 <= k < |rest| && PlainHas(segs, rest[k]) {
          var k :| 0 <= k < |rest| && PlainHas(segs, rest[k]);
          assert terms[k + 1] == rest[k];
        }
      }
    }
  }

  /** A hit survives later terms. */
  lemma {:induction false} MarkSegmentsKeepsHit(segs: seq<Segment>, terms: seq<string>)
    requires forall k :: 0 <= k < |terms| ==> terms[k] != []
    requires HasHit(segs)
    ensures HasHit(MarkSegments(segs, terms))
    decreases |terms|
  {
    if terms != [] {
      ApplyTermHits(segs, terms[0]);
      MarkSegmentsKeepsHit(ApplyTerm(segs, terms[0]), terms[1..]);
    }
  }

  /** The corrected marking finds a match in a node exactly when the code's
      loop does: when some term occurs in the node's text. */
  lemma MarkTextHasHit(text: string, terms: seq<string>)
    requires forall k :: 0 <= k < |terms| ==> terms[k] != []
    ensures HasHit(MarkText(text, terms)) <==> Occurs(text, terms)
    ensures HasHit(MarkText(text, terms)) <==> MarkTextAsWritten(text, terms).1
  {
    MarkSegmentsHits([Plain(text)], terms);
    assert !HasHit([Plain(text)]);
    forall w ensures PlainHas([Plain(text)], w) <==> Found(text, w) {
      if Found(text, w) {
        assert [Plain(text)][0].text == text;
      }
    }
    AsWrittenHasMatch(text, terms);
  }

  /** For a one-word query the two versions coincide: the node's new markup and
      its "has a match" flag are the same. */
  lemma SingleTermAgrees(text: string, w: string)
    requires w != []
    ensures MarkTextAsWritten(text, [w]) == (Render(MarkText(text, [w])), HasHit(MarkText(text, [w])))
  {
    ApplyTermToOnePlain(text, w);
    assert [w][1..] == [];
    assert MarkSegments([Plain(text)], [w]) == MarkSegments(ApplyTerm([Plain(text)], w), []);
    assert MarkText(text, [w]) == SplitTerm(text, w);
    SplitTermSpec(text, w);
    if !Found(text, w) {
      MarkAllWithoutMatch(text, w);
      assert MarkStringAsWritten(text, false, [w]) == MarkStringAsWritten(text, false, []);
    } else {
      assert MarkStringAsWritten(text, false, [w]) == MarkStringAsWritten(MarkAll(text, w), true, []);
    }
  }

  lemma {:induction false} MarkAllWithoutMatch(s: string, w: string)
    requires w != [] && !Found(s, w)
    ensures MarkAll(s, w) == s
    decreases |s|
  {
    if |s| >= |w| {
      MarkAllWithoutMatch(s[1..], w);
    }
  }

  /** The query "cat ma" on the text "cat", as the component runs it: the second
      term matches the "ma" of the tag just inserted for "cat", so the node's new
      markup begins with `<` followed by a second opening tag. */
  lemma AsWrittenMarksInsideMarkup()
    ensures var (html, _) := MarkTextAsWritten("cat", ["cat", "ma"]);
      |html| > |Open| && html[..|Open| + 1] == "<" + Open
  {
    var once := Open + "cat" + Close;
    assert Open[0] == '<' && Open[1] == 'm' && Open[2] == 'a';
    assert MatchesHere("cat", "cat");
    assert MarkAll("cat", "cat") == once by {
      assert "cat"[..3] == "cat" && "cat"[3..] == [];
    }
    assert !MatchesHere(once, "ma") by {
      assert once[..2] == "<m";
    }
    assert once[1..][..2] == "ma";
    assert MatchesHere(once[1..], "ma");
    assert Found(once, "ma");
    var tail := MarkAll(once[1..][2..], "ma");
    assert MarkAll(once[1..], "ma") == Open + "ma" + Close + tail;
    assert MarkAll(once, "ma") == ['<'] + (Open + "ma" + Close + tail);
  }

  /** The same query with terms kept out of earlier highlights: one marker around
      "cat", nothing else. */
  lemma SegmentedMarksTextOnly()
    ensures Render(MarkText("cat", ["cat", "ma"])) == Open + "cat" + Close
  {
    ApplyTermToOnePlain("cat", "cat");
    assert MatchesHere("cat", "cat");
    assert SplitTerm("cat", "cat") == [Hit("cat")] by {
      assert "cat"[..3] == "cat" && "cat"[3..] == [];
    }
    assert ApplyTerm([Hit("cat")], "ma") == [Hit("cat")];
  }
  /** No plain segment contains an occurrence of any of the words `ws`. */
  predicate Clean(segs: seq<Segment>, ws: seq<string>) {
    forall k, w :: 0 <= k < |segs| && segs[k].Plain? && w in ws ==> !Found(segs[k].text, w)
  }

  lemma {:induction false} FoundPrefix(s: string, j: nat, w: string)
    requires j <= |s|
    ensures Found(s[..j], w) ==> Found(s, w)
    decreases j
  {
    assert MatchesHere(s[..j], w) ==> MatchesHere(s, w) by {
      if |w| <= j {
        assert s[..j][..|w|] == s[..|w|];
      }
    }
    if j > 0 {
      assert s[..j][1..] == s[1..][..j - 1];
      FoundPrefix(s[1..], j - 1, w);
    }
  }

  lemma {:induction false} FoundSuffix(s: string, i: nat, w: string)
    requires i <= |s|
    ensures Found(s[i..], w) ==> Found(s, w)
    decreases i
  {
    if i > 0 {
      assert s[1..][i - 1..] == s[i..];
      FoundSuffix(s[1..], i - 1, w);
    }
  }

  lemma CleanSubset(segs: seq<Segment>, ws: seq<string>, vs: seq<string>)
    requires Clean(segs, ws) && forall v :: v in vs ==> v in ws
    ensures Clean(segs, vs)
  {
  }

  /** The first segment of a split is a prefix of the split text. */
  lemma FirstTextIsPrefix(segs: seq<Segment>, s: string)
    requires segs != [] && Texts(segs) == s
    ensures |segs[0].text| <= |s| && s[..|segs[0].text|] == segs[0].text
  {
    assert Texts(segs) == segs[0].text + Texts(segs[1..]);
  }

  /** Splitting by `w` never creates an occurrence of `v` in a plain piece that
      the text did not have. */
  lemma {:induction false} SplitTermPlainsInherit(s: string, w: string, v: string)
    requires w != [] && !Found(s, v)
    ensures forall k :: 0 <= k < |SplitTerm(s, w)| && SplitTerm(s, w)[k].Plain? ==> !Found(SplitTerm(s, w)[k].text, v)
    decreases |s|
  {
    var r := SplitTerm(s, w);
    if |s| < |w| {
    } else if MatchesHere(s, w) {
      var rest := SplitTerm(s[|w|..], w);
      FoundSuffix(s, |w|, v);
      SplitTermPlainsInherit(s[|w|..], w, v);
      assert forall k :: 1 <= k < |r| ==> r[k] == rest[k - 1];
    } else {
      var rest := SplitTerm(s[1..], w);
      FoundSuffix(s, 1, v);
      SplitTermPlainsInherit(s[1..], w, v);
      SplitTermSpec(s[1..], w);
      var q := LeadText(rest);
      LeadTextIsPrefix(rest);
      assert [s[0]] + q == s[..1 + |q|];
      FoundPrefix(s, 1 + |q|, v);
      ConsPlainPlains(s[0], rest, v);
    }
  }

  /** The plain pieces of a split by `w` hold no occurrence of `w`: the scan
      wraps every one it meets. */
  lemma {:induction false} SplitTermPlainsClean(s: string, w: string)
    requires w != []
    ensures forall k :: 0 <= k < |SplitTerm(s, w)| && SplitTerm(s, w)[k].Plain? ==> !Found(SplitTerm(s, w)[k].text, w)
    decreases |s|
  {
    var r := SplitTerm(s, w);
    if |s| < |w| {
      NotFoundWhenShort(s, w);
    } else if MatchesHere(s, w) {
      var rest := SplitTerm(s[|w|..], w);
      SplitTermPlainsClean(s[|w|..], w);
      assert forall k :: 1 <= k < |r| ==> r[k] == rest[k - 1];
    } else {
      var rest := SplitTerm(s[1..], w);
      SplitTermPlainsClean(s[1..], w);
      SplitTermSpec(s[1..], w);
      ConsPlainClean(s, rest, w);
    }
  }

  lemma ConsPlainClean(s: string, rest: seq<Segment>, w: string)
    requires s != [] && Texts(rest) == s[1..] && !MatchesHere(s, w)
    requires forall k :: 0 <= k < |rest| && rest[k].Plain? ==> !Found(rest[k].text, w)
    ensures forall k :: 0 <= k < |ConsPlain(s[0], rest)| && ConsPlain(s[0], rest)[k].Plain? ==> !Found(ConsPlain(s[0], rest)[k].text, w)
  {
    var r := ConsPlain(s[0], rest);
    var q: string := if rest != [] && rest[0].Plain? then rest[0].text else [];
    if rest != [] && rest[0].Plain? {
      FirstTextIsPrefix(rest, s[1..]);
      assert forall k :: 1 <= k < |r| ==> r[k] == rest[k];
    } else {
      assert forall k :: 1 <= k < |r| ==> r[k] == rest[k - 1];
    }
    assert r[0].text == [s[0]] + q;
    assert [s[0]] + q == s[..1 + |q|];
    assert !Found(q, w);
    assert !MatchesHere(r[0].text, w) by {
      if |w| <= |r[0].text| {
        assert r[0].text[..|w|] == s[..|w|];
      }
    }
    assert r[0].text[1..] == q;
  }

  lemma ApplyTermAppend(a: seq<Segment>, b: seq<Segment>, w: string)
    requires w != []
    ensures ApplyTerm(a + b, w) == ApplyTerm(a, w) + ApplyTerm(b, w)
  {
    if a == [] {
      assert a + b == b;
    } else {
      assert (a + b)[1..] == a[1..] + b;
      ApplyTermAppend(a[1..], b, w);
    }
  }

  /** Applying `w` keeps the plain pieces clean of the words they were clean of,
      and makes them clean of `w` too. */
  lemma {:induction false} ApplyTermClean(segs: seq<Segment>, w: string, ws: seq<string>)
    requires w != [] && Clean(segs, ws)
    ensures Clean(ApplyTerm(segs, w), ws + [w])
  {
    if segs != [] {
      ApplyTermClean(segs[1..], w, ws);
      var head: seq<Segment> := match segs[0] case Plain(t) => SplitTerm(t, w) case Hit(t) => [segs[0]];
      var tail := ApplyTerm(segs[1..], w);
      var r := head + tail;
      assert ApplyTerm(segs, w) == r;
      if segs[0].Plain? {
        SplitTermPlainsClean(segs[0].text, w);
        forall v | v in ws
          ensures forall k :: 0 <= k < |head| && head[k].Plain? ==> !Found(head[k].text, v)
        {
          SplitTermPlainsInherit(segs[0].text, w, v);
        }
      }
      forall k, v | 0 <= k < |r| && r[k].Plain? && v in ws + [w]
        ensures !Found(r[k].text, v)
      {
        if k >= |head| {
          assert r[k] == tail[k - |head|];
        }
      }
    }
  }

  lemma {:induction false} MarkSegmentsClean(segs: seq<Segment>, terms: seq<string>, ws: seq<string>)
    requires forall k :: 0 <= k < |terms| ==> terms[k] != []
    requires Clean(segs, ws)
    ensures Clean(MarkSegments(segs, terms), ws + terms)
    decreases |terms|
  {
    if terms == [] {
      assert ws + terms == ws;
    } else {
      ApplyTermClean(segs, terms[0], ws);
      MarkSegmentsClean(ApplyTerm(segs, terms[0]), terms[1..], ws + [terms[0]]);
      assert ws + [terms[0]] + terms[1..] == ws + terms;
    }
  }

  /** After highlighting, no plain piece still contains a term. */
  lemma MarkTextClean(text: string, terms: seq<string>)
    requires forall k :: 0 <= k < |terms| ==> terms[k] != []
    ensures Clean(MarkText(text, terms), terms)
  {
    MarkSegmentsClean([Plain(text)], terms, []);
    assert [] + terms == terms;
  }

  /** Text clean of every term gains no highlight. */
  lemma {:induction false} MarkSegmentsNoHit(segs: seq<Segment>, terms: seq<string>)
    requires forall k :: 0 <= k < |terms| ==> terms[k] != []
    requires !HasHit(segs) && Clean(segs, terms)
    ensures !HasHit(MarkSegments(segs, terms))
    decreases |terms|
  {
    if terms != [] {
      var w := terms[0];
      ApplyTermNoHit(segs, w, terms);
      CleanSubset(ApplyTerm(segs, w), terms, terms[1..]);
      MarkSegmentsNoHit(ApplyTerm(segs, w), terms[1..]);
    }
  }

  lemma {:induction false} ApplyTermNoHit(segs: seq<Segment>, w: string, ws: seq<string>)
    requires w != [] && w in ws
    requires !HasHit(segs) && Clean(segs, ws)
    ensures !HasHit(ApplyTerm(segs, w)) && Clean(ApplyTerm(segs, w), ws)
  {
    if segs != [] {
      assert segs[0].Plain?;
      assert forall k :: 0 <= k < |segs[1..]| ==> segs[1..][k] == segs[k + 1];
      ApplyTermNoHit(segs[1..], w, ws);
      var t := segs[0].text;
      var head := SplitTerm(t, w);
      assert ApplyTerm(segs, w) == head + ApplyTerm(segs[1..], w);
      SplitTermSpec(t, w);
      forall v | v in ws
        ensures forall k :: 0 <= k < |head| && head[k].Plain? ==> !Found(head[k].text, v)
      {
        SplitTermPlainsInherit(t, w, v);
      }
      ConcatNoHitClean(head, ApplyTerm(segs[1..], w), ws);
    }
  }

  lemma ConcatNoHitClean(a: seq<Segment>, b: seq<Segment>, ws: seq<string>)
    requires !HasHit(a) && Clean(a, ws) && !HasHit(b) && Clean(b, ws)
    ensures !HasHit(a + b) && Clean(a + b, ws)
  {
    assert forall k :: 0 <= k < |a + b| ==> (a + b)[k] == if k < |a| then a[k] else b[k - |a|];
  }

  /** A text that contains none of the terms is left as it is. */
  lemma CleanTextUnmarked(text: string, terms: seq<string>)
    requires forall k :: 0 <= k < |terms| ==> terms[k] != []
    requires forall w :: w in terms ==> !Found(text, w)
    ensures !HasHit(MarkText(text, terms))
  {
    MarkSegmentsNoHit([Plain(text)], terms);
  }
}
