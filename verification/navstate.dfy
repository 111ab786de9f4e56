/** The navigation component's handlers for its three inputs: a new notes tree, the
    end of a router navigation, and a debounced search query. The state is the
    full tree the component holds. Percent-decoding is a parameter that answers
    `None` where `decodeURIComponent` throws; a throw ends the handler before it
    stores anything. */
module NavComponent {
  import opened Wrappers
  import opened Text
  import opened NavTree
  import opened NavUrl

  /** The note a URL points at, decoded, if the URL matches and decodes. */
  function RouteNote(url: string, slug: string, decode: string -> Option<string>): Option<string>
    requires LiteralSlug(slug)
  {
    match NoteIdFromUrl(url, slug)
    case None => None
    case Some(raw) => decode(raw)
  }

  /** The `notesTree$` subscriber: an empty emission is ignored; otherwise the
      path to the routed note is opened in the new tree, which replaces the old
      one. */
  function OnTree(held: seq<TreeNode>, tree: seq<TreeNode>, url: string, slug: string,
                  decode: string -> Option<string>): (r: seq<TreeNode>)
    requires LiteralSlug(slug)
    ensures tree == [] ==> r == held
    ensures tree != [] && NoteIdFromUrl(url, slug).None? ==> r == tree
    ensures tree != [] && NoteIdFromUrl(url, slug).Some? && decode(NoteIdFromUrl(url, slug).value).None? ==> r == held
    ensures tree != [] && NoteIdFromUrl(url, slug).Some? && decode(NoteIdFromUrl(url, slug).value).Some? ==>
      r == ExpandPath(tree, decode(NoteIdFromUrl(url, slug).value).value).nodes
    ensures tree != [] && RouteNote(url, slug, decode).Some? ==> SameShape(tree, r) && OnlyOpens(tree, r)
  {
    if tree == [] then held
    else match NoteIdFromUrl(url, slug)
      case None => tree
      case Some(raw) =>
        match decode(raw)
        case None => held
        case Some(id) => ExpandPath(tree, id).nodes
  }

  /** A new tree arriving while a note is routed is stored with exactly the
      folders above the note's first occurrence opened, every other flag as the
      tree brought it. */
  lemma TreeOpensAncestors(held: seq<TreeNode>, tree: seq<TreeNode>, url: string, slug: string,
                           decode: string -> Option<string>, q: seq<nat>)
    requires LiteralSlug(slug) && tree != []
    requires RouteNote(url, slug, decode).Some?
    ensures var id := RouteNote(url, slug, decode).value;
      var p := FirstPath(tree, id);
      FlagAt(OnTree(held, tree, url, slug, decode), q) ==
        (if p.Some? && Above(q, p.value) then Some(true) else FlagAt(tree, q))
  {
    ExpandPathFlags(tree, RouteNote(url, slug, decode).value, q);
  }

  /** The `NavigationEnd` subscriber: with a tree present and a matching URL, the
      path to the routed note is opened. */
  function OnNavigationEnd(held: seq<TreeNode>, url: string, slug: string,
                           decode: string -> Option<string>): (r: seq<TreeNode>)
    requires LiteralSlug(slug)
    ensures SameShape(held, r) && OnlyOpens(held, r)
    ensures RouteNote(url, slug, decode).None? ==> r == held
    ensures held == [] ==> r == held
  {
    SameShapeReflexive(held);
    if held == [] then held
    else match RouteNote(url, slug, decode)
      case None => held
      case Some(id) => ExpandPath(held, id).nodes
  }

  /** After a navigation to a note the tree holds, the folders above its first
      occurrence are open and every other flag is as before. */
  lemma NavigationOpensAncestors(held: seq<TreeNode>, url: string, slug: string,
                                 decode: string -> Option<string>, q: seq<nat>)
    requires LiteralSlug(slug) && held != []
    requires RouteNote(url, slug, decode).Some?
    ensures var id := RouteNote(url, slug, decode).value;
      var p := FirstPath(held, id);
      FlagAt(OnNavigationEnd(held, url, slug, decode), q) ==
        (if p.Some? && Above(q, p.value) then Some(true) else FlagAt(held, q))
  {
    ExpandPathFlags(held, RouteNote(url, slug, decode).value, q);
  }

  /** The debounced search subscriber: a query that is not blank opens every
      folder; a blank one leaves the tree alone. Sending the query to the search
      service is not modelled. */
  function OnSearch(held: seq<TreeNode>, query: string): (r: seq<TreeNode>)
    ensures AllSpace(query) ==> r == held
    ensures !AllSpace(query) ==> SameShape(held, r) && AllFlags(r, true)
  {
    TrimSpec(query);
    if Trim(query) == [] then held else SetAll(held, true)
  }
}
