/** The navigation component's search views: the flat list of results shown while
    a query is active, the lookup of a note's search result, and
    `buildFilteredTree`, which prunes the tree to the matched notes and orders each
    level folders first, then notes by relevance. */
module NavSearch {
  import opened Wrappers
  import opened Text
  import opened NavTree

  /** One search hit: the note's id and whatever else the search service attaches. */
  datatype SearchResult<D> = SearchResult(noteId: string, detail: D)

  /** The result ids in relevance order. */
  function Ids<D>(results: seq<SearchResult<D>>): (r: seq<string>)
    ensures |r| == |results|
    ensures forall i :: 0 <= i < |r| ==> r[i] == results[i].noteId
  {
    if results == [] then [] else [results[0].noteId] + Ids(results[1..])
  }

  /** `treeNodes`: the whole tree while the query is blank or nothing was found,
      otherwise the results' notes as a flat list in relevance order. */
  function TreeView<D>(query: string, results: seq<SearchResult<D>>, all: seq<TreeNode>): (r: seq<TreeNode>)
    ensures AllSpace(query) || results == [] ==> r == all
    ensures !AllSpace(query) && results != [] ==>
      |r| == |results| && forall i :: 0 <= i < |r| ==> r[i] == Note(results[i].noteId)
  {
    TrimSpec(query);
    if Trim(query) == [] || results == [] then all
    else seq(|results|, i requires 0 <= i < |results| => Note(results[i].noteId))
  }

  /** While searching, the view holds no folder and shows a note exactly when it
      was found. */
  lemma FlatViewShowsResults<D>(query: string, results: seq<SearchResult<D>>, all: seq<TreeNode>, id: string)
    requires !AllSpace(query) && results != []
    ensures var r := TreeView(query, results, all);
      && (forall k :: 0 <= k < |r| ==> r[k].Note?)
      && (Contains(r, id) <==> id in Ids(results))
  {
    var r := TreeView(query, results, all);
    ContainsMembers(r, id);
    if id in Ids(results) {
      var i :| 0 <= i < |results| && Ids(results)[i] == id;
      assert NodeContains(r[i], id);
    }
  }

  /** The position of the first result for the note, or the number of results
      when there is none. */
  function FirstMatch<D>(results: seq<SearchResult<D>>, id: string): (r: nat)
    ensures r <= |results|
    ensures r < |results| ==> results[r].noteId == id
    ensures forall k :: 0 <= k < r ==> results[k].noteId != id
  {
    if results == [] then 0
    else if results[0].noteId == id then 0
    else 1 + FirstMatch(results[1..], id)
  }

  /** `getSearchResult`: the first result for the note, if any. */
  function FindResult<D>(results: seq<SearchResult<D>>, id: string): (r: Option<SearchResult<D>>)
    ensures r.None? <==> id !in Ids(results)
    ensures r.Some? ==> r.value.noteId == id && exists i :: 0 <= i < |results| && r == Some(results[i]) &&
                                                       (forall k :: 0 <= k < i ==> results[k].noteId != id)
  {
    var i := FirstMatch(results, id);
    if i < |results| then
      assert Ids(results)[i] == id;
      Some(results[i])
    else None
  }

  /** The index `noteOrderMap` holds for an id: `forEach` overwrites earlier
      entries, so it is the id's last position among the results. */
  function LastIndex(ids: seq<string>, id: string): (r: Option<nat>)
    ensures r.None? <==> id !in ids
    ensures r.Some? ==> r.value < |ids| && ids[r.value] == id && forall k :: r.value < k < |ids| ==> ids[k] != id
  {
    if ids == [] then None
    else if ids[|ids| - 1] == id then Some(|ids| - 1)
    else
      var r := LastIndex(ids[..|ids| - 1], id);
      assert ids == ids[..|ids| - 1] + [ids[|ids| - 1]];
      r
  }

  /** The sort key the comparator orders by: every folder before every note, and
      notes by their relevance index. A note missing from the map would sort last;
      `buildFilteredTree` only sorts matched notes, so that case does not arise. */
  function Key(ids: seq<string>, node: TreeNode): int {
    match node
    case Folder(_, _, _) => -1
    case Note(id) => match LastIndex(ids, id) case Some(k) => k case None => |ids|
  }

  predicate Sorted(s: seq<TreeNode>, ids: seq<string>) {
    forall i, j :: 0 <= i < j < |s| ==> Key(ids, s[i]) <= Key(ids, s[j])
  }

  /** What a key-sorted level looks like in the terms of the comparator: no note
      before a folder, and notes in relevance order. */
  lemma SortedMeaning(s: seq<TreeNode>, ids: seq<string>, i: nat, j: nat)
    requires Sorted(s, ids) && i < j < |s|
    requires forall k :: 0 <= k < |s| && s[k].Note? ==> s[k].id in ids
    ensures !(s[i].Note? && s[j].Folder?)
    ensures s[i].Note? && s[j].Note? ==> LastIndex(ids, s[i].id).value <= LastIndex(ids, s[j].id).value
  {
    assert Key(ids, s[i]) <= Key(ids, s[j]);
  }

  /** The folders of a level, in order. */
  function Folders(s: seq<TreeNode>): seq<TreeNode> {
    if s == [] then [] else (if s[0].Folder? then [s[0]] else []) + Folders(s[1..])
  }

  /** Places `x` before the first element whose key is not smaller. */
  function Insert(x: TreeNode, s: seq<TreeNode>, ids: seq<string>): (r: seq<TreeNode>)
    ensures multiset(r) == multiset(s) + multiset{x}
  {
    if s == [] || Key(ids, x) <= Key(ids, s[0]) then [x] + s
    else
      assert s == [s[0]] + s[1..];
      [s[0]] + Insert(x, s[1..], ids)
  }

  lemma {:induction false} InsertSorted(x: TreeNode, s: seq<TreeNode>, ids: seq<string>)
    requires Sorted(s, ids)
    ensures Sorted(Insert(x, s, ids), ids)
  {
    if s == [] || Key(ids, x) <= Key(ids, s[0]) {
      SortedCons(x, s, ids);
    } else {
      var t := Insert(x, s[1..], ids);
      InsertSorted(x, s[1..], ids);
      forall y | y in t
        ensures Key(ids, s[0]) <= Key(ids, y)
      {
        assert y in multiset(t);
        if y != x {
          assert y in multiset(s[1..]);
          HeadIsLeast(s, ids, y);
        }
      }
      SortedCons(s[0], t, ids);
    }
  }

  /** The first element of a sorted level has the least key. */
  lemma HeadIsLeast(s: seq<TreeNode>, ids: seq<string>, y: TreeNode)
    requires Sorted(s, ids) && s != [] && y in s[1..]
    ensures Key(ids, s[0]) <= Key(ids, y)
  {
    var k :| 0 <= k < |s[1..]| && s[1..][k] == y;
    assert s[k + 1] == y;
  }

  /** A sorted level stays sorted under a new first element with the least key. */
  lemma SortedCons(x: TreeNode, s: seq<TreeNode>, ids: seq<string>)
    requires Sorted(s, ids)
    requires forall y :: y in s ==> Key(ids, x) <= Key(ids, y)
    ensures Sorted([x] + s, ids)
  {
    var r := [x] + s;
    forall i, j | 0 <= i < j < |r|
      ensures Key(ids, r[i]) <= Key(ids, r[j])
    {
      assert r[j] == s[j - 1];
      if i > 0 {
        assert r[i] == s[i - 1];
      }
    }
  }

  /** `Array.prototype.sort` with the comparator of `buildFilteredTree`. The sort
      is stable and the comparator orders by `Key`, so the result is the
      insertion-sorted sequence. */
  function SortLevel(s: seq<TreeNode>, ids: seq<string>): (r: seq<TreeNode>)
    ensures multiset(r) == multiset(s)
    ensures Sorted(r, ids)
  {
    if s == [] then []
    else
      assert s == [s[0]] + s[1..];
      InsertSorted(s[0], SortLevel(s[1..], ids), ids);
      Insert(s[0], SortLevel(s[1..], ids), ids)
  }

  lemma {:induction false} InsertFolders(x: TreeNode, s: seq<TreeNode>, ids: seq<string>)
    ensures Folders(Insert(x, s, ids)) == (if x.Folder? then [x] else []) + Folders(s)
  {
    if s != [] && Key(ids, x) > Key(ids, s[0]) {
      InsertFolders(x, s[1..], ids);
      assert x.Note?;
      assert Insert(x, s, ids)[1..] == Insert(x, s[1..], ids);
    } else {
      assert ([x] + s)[1..] == s;
    }
  }

  /** The comparator keeps folders in their original relative order. */
  lemma {:induction false} SortKeepsFolderOrder(s: seq<TreeNode>, ids: seq<string>)
    ensures Folders(SortLevel(s, ids)) == Folders(s)
  {
    if s != [] {
      SortKeepsFolderOrder(s[1..], ids);
      InsertFolders(s[0], SortLevel(s[1..], ids), ids);
    }
  }

  /** The loop of `buildFilteredTree` before sorting: a note is kept when it was
      found; a folder is kept, opened, with its filtered children, when those are
      not empty. */
  function Filtered(nodes: seq<TreeNode>, ids: seq<string>): seq<TreeNode>
    decreases nodes, 0
  {
    if nodes == [] then []
    else
      (match nodes[0]
       case Note(x) => if x in ids then [nodes[0]] else []
       case Folder(n, c, _) =>
         var fc := Build(c, ids);
         if fc != [] then [Folder(n, fc, true)] else [])
      + Filtered(nodes[1..], ids)
  }

  function Build(nodes: seq<TreeNode>, ids: seq<string>): seq<TreeNode>
    decreases nodes, 1
  {
    SortLevel(Filtered(nodes, ids), ids)
  }

  /** `buildFilteredTree(nodes, results)`. */
  function BuildFilteredTree<D>(nodes: seq<TreeNode>, results: seq<SearchResult<D>>): (r: seq<TreeNode>)
    ensures multiset(r) == multiset(Filtered(nodes, Ids(results)))
    ensures Folders(r) == Folders(Filtered(nodes, Ids(results)))
    ensures Sorted(r, Ids(results))
  {
    SortKeepsFolderOrder(Filtered(nodes, Ids(results)), Ids(results));
    Build(nodes, Ids(results))
  }

  /** The node holds a note with this id, itself or below. */
  predicate NodeContains(x: TreeNode, id: string) {
    match x
    case Note(y) => y == id
    case Folder(_, c, _) => Contains(c, id)
  }

  lemma {:induction false} ContainsMembers(s: seq<TreeNode>, id: string)
    ensures Contains(s, id) <==> exists x :: x in s && NodeContains(x, id)
  {
    if s != [] {
      ContainsMembers(s[1..], id);
      assert s == [s[0]] + s[1..];
      assert forall x :: x in s <==> x == s[0] || x in s[1..];
      assert Contains(s, id) <==> NodeContains(s[0], id) || Contains(s[1..], id);
    }
  }

  lemma ContainsPermutation(a: seq<TreeNode>, b: seq<TreeNode>, id: string)
    requires multiset(a) == multiset(b)
    ensures Contains(a, id) <==> Contains(b, id)
  {
    ContainsMembers(a, id);
    ContainsMembers(b, id);
    assert forall x :: x in a <==> x in b by {
      assert forall x :: x in a <==> x in multiset(a);
      assert forall x :: x in b <==> x in multiset(b);
    }
  }

  lemma {:induction false} ContainsAppend(a: seq<TreeNode>, b: seq<TreeNode>, id: string)
    ensures Contains(a + b, id) <==> Contains(a, id) || Contains(b, id)
  {
    if a != [] {
      ContainsAppend(a[1..], b, id);
      assert (a + b)[1..] == a[1..] + b;
    } else {
      assert a + b == b;
    }
  }

  /** The filtered tree holds a note exactly when the tree held it and it was
      found: notes are kept iff matched, at every depth. */
  lemma {:induction false} BuildContains(nodes: seq<TreeNode>, ids: seq<string>, id: string)
    ensures Contains(Build(nodes, ids), id) <==> Contains(nodes, id) && id in ids
    decreases nodes, 1
  {
    FilteredContains(nodes, ids, id);
    ContainsPermutation(Build(nodes, ids), Filtered(nodes, ids), id);
  }

  lemma {:induction false} FilteredContains(nodes: seq<TreeNode>, ids: seq<string>, id: string)
    ensures Contains(Filtered(nodes, ids), id) <==> Contains(nodes, id) && id in ids
    decreases nodes, 0
  {
    if nodes != [] {
      var head: seq<TreeNode> := match nodes[0]
        case Note(x) => if x in ids then [nodes[0]] else []
        case Folder(n, c, _) => if Build(c, ids) != [] then [Folder(n, Build(c, ids), true)] else [];
      assert Filtered(nodes, ids) == head + Filtered(nodes[1..], ids);
      ContainsAppend(head, Filtered(nodes[1..], ids), id);
      FilteredContains(nodes[1..], ids, id);
      if nodes[0].Folder? {
        BuildContains(nodes[0].children, ids, id);
      }
    }
  }

  /** Every level is sorted by the comparator, every folder is open and not
      empty, and every note was found. */
  predicate Pruned(s: seq<TreeNode>, ids: seq<string>)
    decreases s
  {
    && Sorted(s, ids)
    && forall k :: 0 <= k < |s| ==>
      match s[k]
      case Note(x) => x in ids
      case Folder(_, c, e) => e && c != [] && Pruned(c, ids)
  }

  lemma {:induction false} BuildPruned(nodes: seq<TreeNode>, ids: seq<string>)
    ensures Pruned(Build(nodes, ids), ids)
    decreases nodes, 1
  {
    var f := Filtered(nodes, ids);
    var r := Build(nodes, ids);
    FilteredPruned(nodes, ids);
    forall k | 0 <= k < |r|
      ensures r[k] in f
    {
      assert r[k] in multiset(r);
    }
  }

  /** The elements of the unsorted level are found notes and open, non-empty,
      pruned folders. */
  lemma {:induction false} FilteredPruned(nodes: seq<TreeNode>, ids: seq<string>)
    ensures forall x :: x in Filtered(nodes, ids) ==>
      match x
      case Note(y) => y in ids
      case Folder(_, c, e) => e && c != [] && Pruned(c, ids)
    decreases nodes, 0
  {
    if nodes != [] {
      FilteredPruned(nodes[1..], ids);
      if nodes[0].Folder? {
        BuildPruned(nodes[0].children, ids);
      }
    }
  }
}
