/** The note viewer's highlighted-content computation and the cache in front of
    it. The cache is a JavaScript `Map`, kept here as its entries in insertion
    order; a key is the content's length in decimal, a dash, and the raw query. */
module HighlightCache {
  import opened Wrappers
  import opened Text
  import Highlight
  import Dom

  datatype Entry = Entry(key: string, value: string)

  /** What the computed signal yields, with the cache after the computation. */
  datatype Rendered = Rendered(html: string, cache: seq<Entry>)

  /** `${content.length}-${query}` for a content of `length` characters. */
  function CacheKey(length: nat, query: string): string {
    Decimal(length) + "-" + query
  }

  /** The key determines the content length and the query it was built from: the
      length's digits never contain the dash. */
  lemma CacheKeyInjective(m: nat, q: string, n: nat, r: string)
    requires CacheKey(m, q) == CacheKey(n, r)
    ensures m == n && q == r
  {
    assert '-' !in Decimal(m) && '-' !in Decimal(n) by {
      assert !IsDigit('-');
    }
    SplitAtFirst(Decimal(m), q, Decimal(n), r, '-');
    DecimalInjective(m, n);
  }

  predicate DistinctKeys(c: seq<Entry>) {
    forall i, j :: 0 <= i < j < |c| ==> c[i].key != c[j].key
  }

  /** `Map.get`: the value stored under `key`, if any. */
  function Lookup(c: seq<Entry>, key: string): (r: Option<string>)
    ensures r.Some? <==> exists i :: 0 <= i < |c| && c[i].key == key
    ensures r.Some? ==> exists i :: 0 <= i < |c| && c[i] == Entry(key, r.value)
  {
    if c == [] then None
    else if c[0].key == key then Some(c[0].value)
    else
      var r := Lookup(c[1..], key);
      assert forall i :: 1 <= i < |c| ==> c[i] == c[1..][i - 1];
      assert forall i :: 0 <= i < |c| - 1 ==> c[1..][i] == c[i + 1];
      r
  }

  /** In a map with distinct keys, the entry at position `i` is what `get`
      returns for its key. */
  lemma LookupAt(c: seq<Entry>, i: nat)
    requires DistinctKeys(c) && i < |c|
    ensures Lookup(c, c[i].key) == Some(c[i].value)
  {
    if i > 0 {
      assert c[0].key != c[i].key;
      assert c[1..][i - 1] == c[i];
      LookupAt(c[1..], i - 1);
    }
  }

  /** `highlightSearchTerms`: a blank query returns the markup as it is; otherwise
      the markup is parsed into a detached `div`, its text nodes highlighted as
      the code does it and the `div`'s inner HTML returned. Parsing and
      serialisation are parameters. */
  function HighlightSearchTerms(html: string, query: string, parse: string -> seq<Dom.Node>, serialise: seq<Dom.Node> -> string): (r: string)
    ensures AllSpace(query) ==> r == html
    ensures !AllSpace(query) && Dom.NoOccurrence(parse(html), Highlight.Terms(query)) ==> r == serialise(parse(html))
  {
    TrimSpec(query);
    Dom.FragmentKeepsClean(parse(html), query, parse);
    if Trim(query) == [] then html else serialise(Dom.HighlightFragment(parse(html), query, parse))
  }

  /** Otherwise the result is the serialisation of a fragment with as many
      top-level nodes as the parsed markup, in which exactly the top-level text
      nodes holding a term were replaced. */
  lemma SearchTermsReplaces(html: string, query: string, parse: string -> seq<Dom.Node>, serialise: seq<Dom.Node> -> string)
    requires !AllSpace(query)
    ensures exists f: seq<Dom.Node> ::
      && HighlightSearchTerms(html, query, parse, serialise) == serialise(f)
      && |f| == |parse(html)|
      && (forall k :: 0 <= k < |f| && parse(html)[k].TextNode? ==>
            (f[k] == parse(html)[k] <==> !Highlight.Occurs(parse(html)[k].text, Highlight.Terms(query))))
  {
    TrimSpec(query);
    var f := Dom.HighlightFragment(parse(html), query, parse);
    Dom.FragmentReplaces(parse(html), query, parse);
    assert HighlightSearchTerms(html, query, parse, serialise) == serialise(f);
  }

  /** Makes room when the map holds more than ten entries, then appends. */
  function Store(c: seq<Entry>, key: string, value: string): (r: seq<Entry>)
    requires Lookup(c, key).None?
    ensures DistinctKeys(c) ==> DistinctKeys(r)
    ensures |c| <= 11 ==> |r| <= 11
    ensures r == (if |c| > 10 then c[1..] else c) + [Entry(key, value)]
  {
    var kept := if |c| > 10 then c[1..] else c;
    assert forall i :: 0 <= i < |kept| ==> kept[i] in c;
    kept + [Entry(key, value)]
  }

  /** The `noteContent` computed signal with its cache. Blank queries and empty
      content bypass the cache; a hit returns the stored markup and leaves the
      cache alone; a miss highlights, drops the oldest entry when the map holds
      more than ten, and appends the new one. */
  function NoteContent(c: seq<Entry>, content: string, query: string,
                       parse: string -> seq<Dom.Node>, serialise: seq<Dom.Node> -> string): (r: Rendered)
    ensures DistinctKeys(c) ==> DistinctKeys(r.cache)
    ensures |c| <= 11 ==> |r.cache| <= 11
    ensures AllSpace(query) || content == [] ==> r == Rendered(content, c)
    ensures !AllSpace(query) && content != [] && Lookup(c, CacheKey(|content|, query)).Some? ==>
      r == Rendered(Lookup(c, CacheKey(|content|, query)).value, c)
    ensures !AllSpace(query) && content != [] && Lookup(c, CacheKey(|content|, query)).None? ==>
      && r.html == HighlightSearchTerms(content, query, parse, serialise)
      && r.cache == (if |c| > 10 then c[1..] else c) + [Entry(CacheKey(|content|, query), r.html)]
  {
    TrimSpec(query);
    if Trim(query) == [] || content == [] then Rendered(content, c)
    else
      var key := CacheKey(|content|, query);
      var hit := Lookup(c, key);
      if hit.Some? then Rendered(hit.value, c)
      else
        var html := HighlightSearchTerms(content, query, parse, serialise);
        Rendered(html, Store(c, key, html))
  }

  /** After a miss, the new markup is what the key now maps to, and every other
      key keeps its value unless it was the oldest of eleven entries. */
  lemma MissStoresResult(c: seq<Entry>, content: string, query: string,
                         parse: string -> seq<Dom.Node>, serialise: seq<Dom.Node> -> string, other: string)
    requires DistinctKeys(c) && !AllSpace(query) && content != []
    requires Lookup(c, CacheKey(|content|, query)).None?
    ensures var r := NoteContent(c, content, query, parse, serialise);
      && Lookup(r.cache, CacheKey(|content|, query)) == Some(r.html)
      && (other != CacheKey(|content|, query) && (|c| <= 10 || other != c[0].key) ==> Lookup(r.cache, other) == Lookup(c, other))
  {
    var r := NoteContent(c, content, query, parse, serialise);
    var key := CacheKey(|content|, query);
    LookupAt(r.cache, |r.cache| - 1);
    var kept := if |c| > 10 then c[1..] else c;
    assert r.cache == kept + [Entry(key, r.html)];
    if other != key && (|c| <= 10 || other != c[0].key) {
      LookupAppendOther(kept, Entry(key, r.html), other);
      if |c| > 10 {
        assert Lookup(c, other) == Lookup(c[1..], other);
      }
    }
  }

  lemma LookupAppendOther(c: seq<Entry>, e: Entry, key: string)
    requires e.key != key
    ensures Lookup(c + [e], key) == Lookup(c, key)
  {
    if c == [] {
      assert Lookup([e], key) == Lookup([e][1..], key);
    } else {
      assert (c + [e])[1..] == c[1..] + [e];
      LookupAppendOther(c[1..], e, key);
    }
  }

  /** Two different contents of the same length under the same query share a
      cache slot: once the first is cached, the second is shown with the first's
      markup. */
  lemma SameLengthSharesEntry(c: seq<Entry>, first: string, second: string, query: string,
                              parse: string -> seq<Dom.Node>, serialise: seq<Dom.Node> -> string)
    requires DistinctKeys(c) && !AllSpace(query) && first != [] && |second| == |first|
    ensures var r1 := NoteContent(c, first, query, parse, serialise);
      NoteContent(r1.cache, second, query, parse, serialise) == Rendered(r1.html, r1.cache)
  {
    var r1 := NoteContent(c, first, query, parse, serialise);
    var key := CacheKey(|first|, query);
    if Lookup(c, key).None? {
      MissStoresResult(c, first, query, parse, serialise, key);
    }
  }

  /** The map really holds eleven entries, not ten: a miss on a map of ten grows
      it to eleven, and a miss on a map of eleven evicts exactly the oldest. */
  lemma HoldsEleven(c: seq<Entry>, content: string, query: string,
                    parse: string -> seq<Dom.Node>, serialise: seq<Dom.Node> -> string)
    requires !AllSpace(query) && content != [] && Lookup(c, CacheKey(|content|, query)).None?
    ensures |c| == 10 ==> |NoteContent(c, content, query, parse, serialise).cache| == 11
    ensures |c| == 11 ==> NoteContent(c, content, query, parse, serialise).cache[..10] == c[1..]
  {
  }
}
