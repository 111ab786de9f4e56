/** The note id the navigation component reads from the router URL: the regular
    expression `\/<slug>\/(.+)` is matched against the URL, and the captured text
    is cut at the first `?` and then at the first `#` before it is percent-decoded.
    Percent-decoding is not part of this model. */
module NavUrl {
  import opened Wrappers
  import opened Text
  import Highlight

  /** `/<slug>/`, the literal text in front of the capture. */
  function Lead(slug: string): string {
    "/" + slug + "/"
  }

  /** The expression matches at position `p`: the lead text is there and at least
      one character that `.` accepts follows it. */
  predicate MatchesAt(url: string, slug: string, p: nat) {
    && p + |Lead(slug)| < |url|
    && url[p..p + |Lead(slug)|] == Lead(slug)
    && !IsLineTerminator(url[p + |Lead(slug)|])
  }

  /** The leftmost position at or after `from` where the expression matches. */
  function Leftmost(url: string, slug: string, from: nat): (r: Option<nat>)
    ensures r.Some? ==> from <= r.value && MatchesAt(url, slug, r.value)
    ensures r.Some? ==> forall p: nat :: from <= p < r.value ==> !MatchesAt(url, slug, p)
    ensures r.None? ==> forall p: nat :: from <= p ==> !MatchesAt(url, slug, p)
    decreases |url| - from
  {
    if from + |Lead(slug)| >= |url| then None
    else if MatchesAt(url, slug, from) then Some(from)
    else Leftmost(url, slug, from + 1)
  }

  /** What the greedy `(.+)` captures: the longest prefix free of line
      terminators. */
  function Run(s: string): (r: string)
    ensures r <= s
    ensures forall k :: 0 <= k < |r| ==> !IsLineTerminator(r[k])
    ensures |r| < |s| ==> IsLineTerminator(s[|r|])
  {
    if s == [] || IsLineTerminator(s[0]) then [] else [s[0]] + Run(s[1..])
  }

  /** `s.split(c)[0]`: the text before the first `c`, or all of `s`. */
  function CutAt(s: string, c: char): (r: string)
    ensures r <= s
    ensures c !in r
    ensures |r| < |s| ==> s[|r|] == c
  {
    if s == [] || s[0] == c then [] else [s[0]] + CutAt(s[1..], c)
  }

  /** The slug is spliced into the expression unescaped; it is read as literal
      text only when it holds no character with a meaning in patterns. */
  predicate LiteralSlug(slug: string) {
    forall k :: 0 <= k < |slug| ==> !Highlight.IsRegexSyntax(slug[k])
  }

  /** The string handed to `decodeURIComponent`, or nothing when the URL does not
      match. It holds neither `?` nor `#` nor a line terminator, and it is a prefix
      of what follows the leftmost `/<slug>/`. */
  function NoteIdFromUrl(url: string, slug: string): (r: Option<string>)
    requires LiteralSlug(slug)
    ensures r.Some? <==> exists p: nat :: MatchesAt(url, slug, p)
    ensures r.Some? ==> '?' !in r.value && '#' !in r.value
    ensures r.Some? ==> forall k :: 0 <= k < |r.value| ==> !IsLineTerminator(r.value[k])
    ensures r.Some? ==> exists p: nat :: && MatchesAt(url, slug, p)
                                         && (forall q: nat :: q < p ==> !MatchesAt(url, slug, q))
                                         && r.value <= url[p + |Lead(slug)|..]
                                         && (p + |Lead(slug)| + |r.value| < |url| ==>
                                               EndsId(url[p + |Lead(slug)| + |r.value|]))
  {
    match Leftmost(url, slug, 0)
    case None => None
    case Some(p) => Some(IdIn(url[p + |Lead(slug)|..]))
  }

  /** A character that ends the note id: a query, a fragment or a line break. */
  predicate EndsId(c: char) {
    c == '?' || c == '#' || IsLineTerminator(c)
  }

  /** The captured text cut at the first `?` and then at the first `#`: the
      longest prefix of `rest` free of `?`, `#` and line terminators. */
  function IdIn(rest: string): (id: string)
    ensures id <= rest
    ensures '?' !in id && '#' !in id
    ensures forall k :: 0 <= k < |id| ==> !IsLineTerminator(id[k])
    ensures |id| < |rest| ==> EndsId(rest[|id|])
  {
    var run := Run(rest);
    var once := CutAt(run, '?');
    var id := CutAt(once, '#');
    PrefixTransitive(id, once, run);
    PrefixTransitive(id, run, rest);
    PrefixTransitive(once, run, rest);
    assert forall k :: 0 <= k < |id| ==> id[k] == run[k];
    CutsEndAt(rest, run, once, id);
    id
  }

  /** Cutting the capture twice stops at a `#`, a `?` or the capture's end. */
  lemma CutsEndAt(rest: string, run: string, once: string, id: string)
    requires run == Run(rest) && once == CutAt(run, '?') && id == CutAt(once, '#')
    requires once <= rest
    ensures |id| < |rest| ==> EndsId(rest[|id|])
  {
    if |id| < |rest| {
      if |id| < |once| {
        assert rest[|id|] == once[|id|];
      } else if |once| < |run| {
        assert rest[|id|] == run[|once|];
      }
    }
  }

  lemma PrefixTransitive(a: string, b: string, c: string)
    requires a <= b && b <= c
    ensures a <= c
  {
    assert a == b[..|a|] && b == c[..|b|];
  }

  /** A URL that starts with `/<slug>/<id>` and continues with nothing, a query,
      a fragment or a line break yields `id`. */
  lemma NoteIdRoundTrip(slug: string, id: string, rest: string)
    requires LiteralSlug(slug)
    requires id != [] && '?' !in id && '#' !in id
    requires forall k :: 0 <= k < |id| ==> !IsLineTerminator(id[k])
    requires rest == [] || rest[0] == '?' || rest[0] == '#' || IsLineTerminator(rest[0])
    ensures NoteIdFromUrl(Lead(slug) + id + rest, slug) == Some(id)
  {
    var url := Lead(slug) + id + rest;
    assert url[..|Lead(slug)|] == Lead(slug);
    assert url[|Lead(slug)|..] == id + rest;
    assert MatchesAt(url, slug, 0);
    assert Leftmost(url, slug, 0) == Some(0);
    var run := Run(id + rest);
    RunStopsAfter(id, rest);
    var once := CutAt(run, '?');
    if |run| == |id| || run[|id|] == '?' {
      CutStopsAt(id, run, '?');
    } else {
      CutAtStopsAfter(id, run, '?');
      CutStopsAt(id, once, '#');
    }
    CutStopsAt(id, id, '#');
  }

  /** Cutting at `c` a text that continues `id` with `c`, or with nothing, at a
      character `id` lacks, gives `id`. */
  lemma {:induction false} CutStopsAt(id: string, s: string, c: char)
    requires id <= s && c !in id
    requires |s| == |id| || s[|id|] == c
    ensures CutAt(s, c) == id
  {
    if id != [] {
      assert s[0] == id[0];
      CutStopsAt(id[1..], s[1..], c);
    }
  }

  /** `Run(id + rest)` holds `id`, and whatever it holds beyond `id` begins with
      `?` or `#`. */
  lemma {:induction false} RunStopsAfter(id: string, rest: string)
    requires forall k :: 0 <= k < |id| ==> !IsLineTerminator(id[k])
    requires rest == [] || rest[0] == '?' || rest[0] == '#' || IsLineTerminator(rest[0])
    ensures id <= Run(id + rest)
    ensures |Run(id + rest)| > |id| ==> Run(id + rest)[|id|] in "?#"
  {
    if id != [] {
      assert (id + rest)[1..] == id[1..] + rest;
      RunStopsAfter(id[1..], rest);
    } else {
      assert id + rest == rest;
    }
  }

  /** Cutting at a character `id` lacks keeps `id` and, past it, the text as it
      was. */
  lemma {:induction false} CutAtStopsAfter(id: string, s: string, c: char)
    requires id <= s && c !in id
    ensures id <= CutAt(s, c)
    ensures |CutAt(s, c)| > |id| ==> CutAt(s, c)[|id|] == s[|id|]
  {
    if id != [] {
      assert s[0] == id[0];
      CutAtStopsAfter(id[1..], s[1..], c);
    }
  }
}
