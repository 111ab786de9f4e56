/** The parsed note HTML as a tree of element and text nodes, and the two passes
    the note viewer runs over such a tree: the text-node highlighting pass and the
    plain-text extraction used for the page description.

    Parsing HTML into this tree and serialising it back are not modelled; a
    fragment here is what `innerHTML` assignment produces inside a detached
    `div`. */
module Dom {
  import opened Text
  import opened Highlight

  /** `name` is the upper-case `nodeName`; `classes` is the `classList`. */
  datatype Node = TextNode(text: string) | Element(name: string, classes: seq<string>, children: seq<Node>)

  const HighlightClass: string := "search-highlight"

  /** `textContent` of a fragment: its text nodes' data in document order. */
  function TextContent(nodes: seq<Node>): string
    decreases nodes
  {
    if nodes == [] then []
    else
      (match nodes[0]
       case TextNode(t) => t
       case Element(_, _, ch) => TextContent(ch)) + TextContent(nodes[1..])
  }

  lemma TextContentAppend(a: seq<Node>, b: seq<Node>)
    ensures TextContent(a + b) == TextContent(a) + TextContent(b)
  {
    if a == [] {
      assert a + b == b;
    } else {
      assert (a + b)[1..] == a[1..] + b;
      TextContentAppend(a[1..], b);
    }
  }

  /** The pass leaves text whose parent is a SCRIPT or STYLE element, or an
      element already carrying the highlight class, alone. */
  predicate SkipsTextIn(parentName: string, parentClasses: seq<string>) {
    parentName == "SCRIPT" || parentName == "STYLE" || HighlightClass in parentClasses
  }

  /** The children of the corrected replacement span, built from the pieces
      rather than parsed from markup: a text node per non-empty plain piece and a
      highlight `<mark>` per match. */
  function SegmentNodes(segs: seq<Segment>): (r: seq<Node>)
    ensures TextContent(r) == Texts(segs)
  {
    if segs == [] then []
    else
      var head: seq<Node> := match segs[0]
        case Plain(t) => if t == [] then [] else [TextNode(t)]
        case Hit(t) => [Element("MARK", [HighlightClass], [TextNode(t)])];
      var tail := SegmentNodes(segs[1..]);
      TextContentAppend(head, tail);
      assert TextContent([TextNode(segs[0].text)]) == segs[0].text;
      head + tail
  }

  /** The terms a pass is run with: non-empty words. */
  predicate ValidTerms(terms: seq<string>) {
    forall k :: 0 <= k < |terms| ==> terms[k] != []
  }

  /** The replacement for one text node, or the node itself when no term occurs in
      it. */
  function HighlightText(t: string, terms: seq<string>): Node
    requires ValidTerms(terms)
  {
    var segs := MarkText(t, terms);
    if HasHit(segs) then Element("SPAN", [], SegmentNodes(segs)) else TextNode(t)
  }

  /** `highlightTextNodes` over the children of an element named `parentName`
      with classes `parentClasses`: every text node the walker reaches and does
      not skip is replaced by a `<span>` holding its highlighted pieces when a
      term occurs in it; elements keep their name and classes. */
  function HighlightNodes(nodes: seq<Node>, parentName: string, parentClasses: seq<string>, terms: seq<string>): (r: seq<Node>)
    requires ValidTerms(terms)
    ensures |r| == |nodes|
    ensures forall k :: 0 <= k < |nodes| && nodes[k].Element? ==>
      r[k].Element? && r[k].name == nodes[k].name && r[k].classes == nodes[k].classes && |r[k].children| == |nodes[k].children|
    ensures forall k :: 0 <= k < |nodes| && nodes[k].TextNode? && SkipsTextIn(parentName, parentClasses) ==> r[k] == nodes[k]
    ensures forall k :: 0 <= k < |nodes| && nodes[k].TextNode? && !SkipsTextIn(parentName, parentClasses) ==>
      (r[k] == nodes[k] <==> !HasHit(MarkText(nodes[k].text, terms)))
    ensures forall k :: 0 <= k < |nodes| && nodes[k].TextNode? && r[k] != nodes[k] ==>
      r[k] == Element("SPAN", [], SegmentNodes(MarkText(nodes[k].text, terms)))
    decreases nodes
  {
    if nodes == [] then []
    else
      var head := match nodes[0]
        case TextNode(t) => if SkipsTextIn(parentName, parentClasses) then nodes[0] else HighlightText(t, terms)
        case Element(n, cl, ch) => Element(n, cl, HighlightNodes(ch, n, cl, terms));
      [head] + HighlightNodes(nodes[1..], parentName, parentClasses, terms)
  }

  /** Lines 419-421 as written: the markup the string loop built is assigned to
      a new span's `innerHTML`, so `parse` reads the node's own text together with
      the inserted tags. */
  function HighlightTextAsWritten(t: string, terms: seq<string>, parse: string -> seq<Node>): Node
    requires ValidTerms(terms)
  {
    var (markup, hasMatch) := MarkTextAsWritten(t, terms);
    if hasMatch then Element("SPAN", [], parse(markup)) else TextNode(t)
  }

  /** `highlightTextNodes` as written: the same walk and the same skips, with
      each replaced text node becoming a span whose children are the parse of
      the rewritten string. */
  function HighlightNodesAsWritten(nodes: seq<Node>, parentName: string, parentClasses: seq<string>,
                                   terms: seq<string>, parse: string -> seq<Node>): (r: seq<Node>)
    requires ValidTerms(terms)
    ensures |r| == |nodes|
    ensures forall k :: 0 <= k < |nodes| && nodes[k].Element? ==>
      r[k].Element? && r[k].name == nodes[k].name && r[k].classes == nodes[k].classes && |r[k].children| == |nodes[k].children|
    ensures forall k :: 0 <= k < |nodes| && nodes[k].TextNode? && SkipsTextIn(parentName, parentClasses) ==> r[k] == nodes[k]
    ensures forall k :: 0 <= k < |nodes| && nodes[k].TextNode? && !SkipsTextIn(parentName, parentClasses) ==>
      (r[k] == nodes[k] <==> !Occurs(nodes[k].text, terms))
    ensures forall k :: 0 <= k < |nodes| && nodes[k].TextNode? && r[k] != nodes[k] ==>
      r[k] == Element("SPAN", [], parse(MarkTextAsWritten(nodes[k].text, terms).0))
    decreases nodes
  {
    if nodes == [] then []
    else
      var head := match nodes[0]
        case TextNode(t) => if SkipsTextIn(parentName, parentClasses) then nodes[0] else HighlightTextAsWritten(t, terms, parse)
        case Element(n, cl, ch) => Element(n, cl, HighlightNodesAsWritten(ch, n, cl, terms, parse));
      var tail := HighlightNodesAsWritten(nodes[1..], parentName, parentClasses, terms, parse);
      var r := [head] + tail;
      assert forall k :: 1 <= k < |r| ==> r[k] == tail[k - 1];
      assert nodes[0].TextNode? && !SkipsTextIn(parentName, parentClasses) ==>
        (head == nodes[0] <==> !Occurs(nodes[0].text, terms)) by {
        if nodes[0].TextNode? {
          AsWrittenHasMatch(nodes[0].text, terms);
        }
      }
      r
  }

  /** The code's pass and the corrected one replace exactly the same text nodes:
      those not under a skipped parent in which some term occurs. They differ
      only in what the replacement span holds. */
  lemma SameNodesReplaced(nodes: seq<Node>, parentName: string, parentClasses: seq<string>,
                          terms: seq<string>, parse: string -> seq<Node>, k: nat)
    requires ValidTerms(terms) && k < |nodes| && nodes[k].TextNode?
    ensures (HighlightNodes(nodes, parentName, parentClasses, terms)[k] == nodes[k]) <==>
            (HighlightNodesAsWritten(nodes, parentName, parentClasses, terms, parse)[k] == nodes[k])
  {
    MarkTextHasHit(nodes[k].text, terms);
  }

  /** As written, the text `const a<b>` searched for "const" hands the parser
      markup in which the note's own `<b>` is an opening tag: the span's
      children are whatever the parser makes of it, not the text. */
  lemma AsWrittenReparsesText(parse: string -> seq<Node>)
    ensures HighlightNodesAsWritten([TextNode("const a<b>")], "DIV", [], ["const"], parse) ==
      [Element("SPAN", [], parse(Open + "const" + Close + " a<b>"))]
  {
    var t := "const a<b>";
    assert MatchesHere(t, "const") by {
      assert t[..5] == "const";
    }
    assert t[5..] == " a<b>";
    FirstCharMismatch(" a<b>", "const");
    assert " a<b>"[1..] == "a<b>";
    assert MarkAll(" a<b>", "const") == " a<b>";
    assert MarkAll(t, "const") == Open + "const" + Close + " a<b>";
    assert MarkTextAsWritten(t, ["const"]) == (Open + "const" + Close + " a<b>", true);
  }

  /** No position of " a<b>" starts "const". */
  lemma NoConstAfterKeyword()
    ensures !Found(" a<b>", "const")
  {
    FirstCharMismatch(" a<b>", "const");
    assert " a<b>"[1..] == "a<b>";
    FirstCharMismatch("a<b>", "const");
    assert "a<b>"[1..] == "<b>";
    assert !Found("<b>", "const") by {
      FirstCharMismatch("<b>", "const");
      assert "<b>"[1..] == "b>";
      FirstCharMismatch("b>", "const");
      assert "b>"[1..] == ">";
      FirstCharMismatch(">", "const");
      assert ">"[1..] == [];
    }
  }

  /** The corrected pass splits "const a<b>" into the hit and the untouched rest. */
  lemma ConstKeywordPieces()
    ensures MarkText("const a<b>", ["const"]) == [Hit("const"), Plain(" a<b>")]
  {
    var t := "const a<b>";
    assert MatchesHere(t, "const") by {
      assert t[..5] == "const";
    }
    assert t[5..] == " a<b>";
    NoConstAfterKeyword();
    assert t[..5] == "const";
    SplitTermNoMatch(" a<b>", "const");
    assert SplitTerm(t, "const") == [Hit("const")] + SplitTerm(" a<b>", "const");
    assert SplitTerm(t, "const") == [Hit("const"), Plain(" a<b>")];
    ApplyTermToOnePlain(t, "const");
    assert MarkText(t, ["const"]) == MarkSegments(ApplyTerm([Plain(t)], "const"), []);
  }

  /** The corrected pass on the same text: a marker around "const" followed by
      the text node ` a<b>`, so the text a reader sees is unchanged. */
  lemma SegmentedKeepsMarkupText()
    ensures HighlightNodes([TextNode("const a<b>")], "DIV", [], ["const"]) ==
      [Element("SPAN", [], [Element("MARK", [HighlightClass], [TextNode("const")]), TextNode(" a<b>")])]
  {
    var t := "const a<b>";
    ConstKeywordPieces();
    assert HasHit(MarkText(t, ["const"])) by {
      assert MarkText(t, ["const"])[0].Hit?;
    }
    var segs := [Hit("const"), Plain(" a<b>")];
    assert segs[1..] == [Plain(" a<b>")];
    assert SegmentNodes(segs[1..]) == [TextNode(" a<b>")] + SegmentNodes([]);
    assert SegmentNodes(segs) == [Element("MARK", [HighlightClass], [TextNode("const")])] + SegmentNodes(segs[1..]);
    assert HighlightText(t, ["const"]) == Element("SPAN", [], SegmentNodes(segs));
    var nodes := [TextNode(t)];
    assert nodes[1..] == [];
    assert !SkipsTextIn("DIV", []) by {
      assert "DIV"[0] != "SCRIPT"[0] && "DIV"[0] != "STYLE"[0];
    }
    assert HighlightNodes(nodes, "DIV", [], ["const"]) == [HighlightText(t, ["const"])] + HighlightNodes(nodes[1..], "DIV", [], ["const"]);
    assert SegmentNodes(segs) == [Element("MARK", [HighlightClass], [TextNode("const")]), TextNode(" a<b>")];
  }

  /** `highlightSearchTerms` on a parsed fragment, as written: a blank query
      changes nothing; otherwise the fragment's top-level nodes are the children
      of the temporary `div`, and the pass runs as the code writes it. */
  function HighlightFragment(nodes: seq<Node>, query: string, parse: string -> seq<Node>): (r: seq<Node>)
    ensures AllSpace(query) ==> r == nodes
    ensures |r| == |nodes|
  {
    TrimSpec(query);
    if Trim(query) == [] then nodes
    else
      TermsSpec(query);
      HighlightNodesAsWritten(nodes, "DIV", [], Terms(query), parse)
  }

  /** What the fragment pass does to each top-level node: elements keep their
      name, classes and number of children; a text node is left in place exactly
      when no term occurs in it, and is otherwise replaced by a span holding
      `parse` of the string the term loop built. */
  lemma FragmentReplaces(nodes: seq<Node>, query: string, parse: string -> seq<Node>)
    ensures var r := HighlightFragment(nodes, query, parse);
      forall k :: 0 <= k < |nodes| && nodes[k].Element? ==>
        r[k].Element? && r[k].name == nodes[k].name && r[k].classes == nodes[k].classes && |r[k].children| == |nodes[k].children|
    ensures var r := HighlightFragment(nodes, query, parse);
      forall k :: 0 <= k < |nodes| && nodes[k].TextNode? ==>
        (r[k] == nodes[k] <==> !Occurs(nodes[k].text, Terms(query)))
    ensures var r := HighlightFragment(nodes, query, parse);
      forall k :: 0 <= k < |nodes| && nodes[k].TextNode? && r[k] != nodes[k] ==>
        r[k] == Element("SPAN", [], parse(MarkTextAsWritten(nodes[k].text, Terms(query)).0))
  {
    if AllSpace(query) {
      FragmentOfBlank(nodes, query, parse);
    } else {
      FragmentOfQuery(nodes, query, parse);
    }
  }

  lemma FragmentOfBlank(nodes: seq<Node>, query: string, parse: string -> seq<Node>)
    requires AllSpace(query)
    ensures HighlightFragment(nodes, query, parse) == nodes
    ensures forall t :: !Occurs(t, Terms(query))
  {
    TermsOfBlank(query);
  }

  lemma FragmentOfQuery(nodes: seq<Node>, query: string, parse: string -> seq<Node>)
    requires !AllSpace(query)
    ensures ValidTerms(Terms(query))
    ensures HighlightFragment(nodes, query, parse) == HighlightNodesAsWritten(nodes, "DIV", [], Terms(query), parse)
    ensures !SkipsTextIn("DIV", [])
  {
    TrimSpec(query);
    TermsSpec(query);
    DivNotSkipped();
  }

  /** The temporary `div` is neither SCRIPT nor STYLE and has no classes. */
  lemma DivNotSkipped()
    ensures !SkipsTextIn("DIV", [])
  {
    assert "DIV"[0] != "SCRIPT"[0] && "DIV"[0] != "STYLE"[0];
  }

  /** A fragment in which no term occurs comes back unchanged. */
  lemma FragmentKeepsClean(nodes: seq<Node>, query: string, parse: string -> seq<Node>)
    ensures NoOccurrence(nodes, Terms(query)) ==> HighlightFragment(nodes, query, parse) == nodes
  {
    TrimSpec(query);
    TermsSpec(query);
    if Trim(query) != [] && NoOccurrence(nodes, Terms(query)) {
      AsWrittenKeepsCleanNodes(nodes, "DIV", [], Terms(query), parse);
    }
  }

  /** The same fragment pass with the corrected, segment-built spans. */
  function HighlightFragmentSegmented(nodes: seq<Node>, query: string): (r: seq<Node>)
    ensures AllSpace(query) ==> r == nodes
    ensures |r| == |nodes|
  {
    TrimSpec(query);
    if Trim(query) == [] then nodes
    else
      TermsSpec(query);
      HighlightNodes(nodes, "DIV", [], Terms(query))
  }

  /** The code's fragment pass and the corrected one leave exactly the same
      top-level text nodes in place. */
  lemma FragmentPassesAgree(nodes: seq<Node>, query: string, parse: string -> seq<Node>, k: nat)
    requires k < |nodes| && nodes[k].TextNode?
    ensures (HighlightFragment(nodes, query, parse)[k] == nodes[k]) <==>
            (HighlightFragmentSegmented(nodes, query)[k] == nodes[k])
  {
    TrimSpec(query);
    TermsSpec(query);
    if Trim(query) != [] {
      SameNodesReplaced(nodes, "DIV", [], Terms(query), parse, k);
    }
  }

  /** No text node of the fragment, at any depth, contains a term. */
  predicate NoOccurrence(nodes: seq<Node>, terms: seq<string>)
    decreases nodes
  {
    nodes != [] ==>
      (match nodes[0]
       case TextNode(t) => !Occurs(t, terms)
       case Element(_, _, ch) => NoOccurrence(ch, terms))
      && NoOccurrence(nodes[1..], terms)
  }

  /** The pass as written changes nothing in a fragment where no term occurs:
      `hasMatch` stays false for every text node it reaches. */
  lemma {:induction false} AsWrittenKeepsCleanNodes(nodes: seq<Node>, parentName: string, parentClasses: seq<string>,
                                                    terms: seq<string>, parse: string -> seq<Node>)
    requires ValidTerms(terms) && NoOccurrence(nodes, terms)
    ensures HighlightNodesAsWritten(nodes, parentName, parentClasses, terms, parse) == nodes
    decreases nodes
  {
    if nodes != [] {
      AsWrittenKeepsCleanNodes(nodes[1..], parentName, parentClasses, terms, parse);
      match nodes[0]
      case TextNode(t) =>
        AsWrittenHasMatch(t, terms);
      case Element(n, cl, ch) =>
        AsWrittenKeepsCleanNodes(ch, n, cl, terms, parse);
      assert nodes == [nodes[0]] + nodes[1..];
    }
  }

  /** Highlighting only wraps text: the fragment's text content is unchanged. */
  lemma {:induction false} HighlightKeepsText(nodes: seq<Node>, parentName: string, parentClasses: seq<string>, terms: seq<string>)
    requires ValidTerms(terms)
    ensures TextContent(HighlightNodes(nodes, parentName, parentClasses, terms)) == TextContent(nodes)
    decreases nodes
  {
    if nodes != [] {
      var r := HighlightNodes(nodes, parentName, parentClasses, terms);
      HighlightKeepsText(nodes[1..], parentName, parentClasses, terms);
      assert r[1..] == HighlightNodes(nodes[1..], parentName, parentClasses, terms);
      match nodes[0]
      case TextNode(t) =>
        if !SkipsTextIn(parentName, parentClasses) {
          MarkTextKeepsText(t, terms);
          assert TextContent([r[0]]) == TextContent([nodes[0]]);
        }
      case Element(n, cl, ch) =>
        HighlightKeepsText(ch, n, cl, terms);
        assert TextContent([r[0]]) == TextContent([nodes[0]]);
      TextContentAppend([r[0]], r[1..]);
      TextContentAppend([nodes[0]], nodes[1..]);
      assert r == [r[0]] + r[1..];
      assert nodes == [nodes[0]] + nodes[1..];
    }
  }

  lemma HighlightFragmentKeepsText(nodes: seq<Node>, query: string)
    ensures TextContent(HighlightFragmentSegmented(nodes, query)) == TextContent(nodes)
  {
    if Trim(query) != [] {
      TermsSpec(query);
      HighlightKeepsText(nodes, "DIV", [], Terms(query));
    }
  }

  /** The nodes a highlighted text node's span holds are left alone by a second
      pass: the plain pieces contain no term and the matches sit in marks. */
  lemma {:induction false} SegmentNodesStable(segs: seq<Segment>, terms: seq<string>)
    requires ValidTerms(terms) && Clean(segs, terms)
    ensures HighlightNodes(SegmentNodes(segs), "SPAN", [], terms) == SegmentNodes(segs)
  {
    if segs != [] {
      var head: seq<Node> := match segs[0]
        case Plain(t) => if t == [] then [] else [TextNode(t)]
        case Hit(t) => [Element("MARK", [HighlightClass], [TextNode(t)])];
      var tail := SegmentNodes(segs[1..]);
      assert Clean(segs[1..], terms) by {
        assert forall k :: 0 <= k < |segs[1..]| ==> segs[1..][k] == segs[k + 1];
      }
      SegmentNodesStable(segs[1..], terms);
      HighlightNodesAppend(head, tail, "SPAN", [], terms);
      assert SegmentNodes(segs) == head + tail;
      match segs[0]
      case Plain(t) =>
        if t != [] {
          CleanTextUnmarked(t, terms);
        }
      case Hit(t) =>
        assert HighlightClass in [HighlightClass];
        var inner := HighlightNodes([TextNode(t)], "MARK", [HighlightClass], terms);
        assert inner == [TextNode(t)];
    }
  }

  lemma HighlightNodesAppend(a: seq<Node>, b: seq<Node>, parentName: string, parentClasses: seq<string>, terms: seq<string>)
    requires ValidTerms(terms)
    ensures HighlightNodes(a + b, parentName, parentClasses, terms)
      == HighlightNodes(a, parentName, parentClasses, terms) + HighlightNodes(b, parentName, parentClasses, terms)
  {
    if a == [] {
      assert a + b == b;
    } else {
      assert (a + b)[1..] == a[1..] + b;
      HighlightNodesAppend(a[1..], b, parentName, parentClasses, terms);
    }
  }

  /** Running the pass on its own output changes nothing: a replaced text node's
      plain pieces hold no term any more, and its matches sit inside elements with
      the highlight class, which the pass skips. */
  lemma {:induction false} HighlightIdempotent(nodes: seq<Node>, parentName: string, parentClasses: seq<string>, terms: seq<string>)
    requires ValidTerms(terms)
    ensures var once := HighlightNodes(nodes, parentName, parentClasses, terms);
      HighlightNodes(once, parentName, parentClasses, terms) == once
    decreases nodes
  {
    if nodes != [] {
      var once := HighlightNodes(nodes, parentName, parentClasses, terms);
      HighlightIdempotent(nodes[1..], parentName, parentClasses, terms);
      assert once == [once[0]] + HighlightNodes(nodes[1..], parentName, parentClasses, terms);
      HighlightNodesAppend([once[0]], once[1..], parentName, parentClasses, terms);
      match nodes[0]
      case TextNode(t) =>
        if !SkipsTextIn(parentName, parentClasses) {
          var segs := MarkText(t, terms);
          if HasHit(segs) {
            MarkTextClean(t, terms);
            SegmentNodesStable(segs, terms);
            assert HighlightNodes([once[0]], parentName, parentClasses, terms) == [once[0]];
          } else {
            assert HighlightNodes([once[0]], parentName, parentClasses, terms) == [once[0]];
          }
        }
      case Element(n, cl, ch) =>
        HighlightIdempotent(ch, n, cl, terms);
        assert HighlightNodes([once[0]], parentName, parentClasses, terms) == [once[0]];
    }
  }

  /** `extractTextContent` on a parsed fragment: SCRIPT and STYLE elements are
      removed, the remaining text is taken, its white-space runs become single
      spaces and the ends are trimmed. */
  function VisibleText(nodes: seq<Node>): string
    decreases nodes
  {
    if nodes == [] then []
    else
      (match nodes[0]
       case TextNode(t) => t
       case Element(n, _, ch) => if n == "SCRIPT" || n == "STYLE" then [] else VisibleText(ch)) + VisibleText(nodes[1..])
  }

  function ExtractText(nodes: seq<Node>): string {
    NormalizeSpaces(VisibleText(nodes))
  }

  /** The extracted text is single-spaced, has no white space at either end, and
      keeps every other character of the visible text in order. */
  lemma ExtractTextSpec(nodes: seq<Node>)
    ensures var r := ExtractText(nodes);
      && SingleSpaced(r)
      && (r == [] || (!IsSpace(r[0]) && !IsSpace(r[|r| - 1])))
      && Ink(r) == Ink(VisibleText(nodes))
  {
    NormalizeSpec(VisibleText(nodes));
  }

  /** Without SCRIPT or STYLE elements the extracted text is the whole text
      content, normalised. */
  lemma {:induction false} VisibleTextWithoutScripts(nodes: seq<Node>)
    requires NoScripts(nodes)
    ensures VisibleText(nodes) == TextContent(nodes)
    decreases nodes
  {
    if nodes != [] {
      VisibleTextWithoutScripts(nodes[1..]);
      if nodes[0].Element? {
        VisibleTextWithoutScripts(nodes[0].children);
      }
    }
  }

  predicate NoScripts(nodes: seq<Node>)
    decreases nodes
  {
    nodes != [] ==>
      (match nodes[0]
       case TextNode(_) => true
       case Element(n, _, ch) => n != "SCRIPT" && n != "STYLE" && NoScripts(ch))
      && NoScripts(nodes[1..])
  }
}
