/** The notes navigation tree and the in-place operations the navigation component
    runs on it: expand all, collapse all, toggle one folder, expand the path to a
    note, and the `trackBy` keys. The component mutates folder objects; here every
    operation returns the new tree. A node is addressed by its path, the index
    taken at each level from the top. */
module NavTree {
  import opened Wrappers
  import opened Text

  datatype TreeNode = Note(id: string) | Folder(name: string, children: seq<TreeNode>, expanded: bool)

  /** `expandPathToNote`'s answer together with the tree it leaves behind. */
  datatype Expanded = Expanded(found: bool, nodes: seq<TreeNode>)

  /** The same notes, folder names and child order; only folder flags may differ. */
  predicate SameShape(a: seq<TreeNode>, b: seq<TreeNode>)
    decreases a
  {
    |a| == |b| &&
    (a != [] ==>
      (match (a[0], b[0])
       case (Note(x), Note(y)) => x == y
       case (Folder(n, c, _), Folder(m, d, _)) => n == m && SameShape(c, d)
       case _ => false)
      && SameShape(a[1..], b[1..]))
  }

  /** Every folder, at every depth, has the flag `flag`. */
  predicate AllFlags(nodes: seq<TreeNode>, flag: bool)
    decreases nodes
  {
    nodes != [] ==>
      (match nodes[0]
       case Note(_) => true
       case Folder(_, c, e) => e == flag && AllFlags(c, flag))
      && AllFlags(nodes[1..], flag)
  }

  /** A note with this id occurs somewhere in the tree. */
  predicate Contains(nodes: seq<TreeNode>, id: string)
    decreases nodes
  {
    nodes != [] &&
    ((match nodes[0]
      case Note(x) => x == id
      case Folder(_, c, _) => Contains(c, id))
     || Contains(nodes[1..], id))
  }

  /** Every folder of `b` is open wherever the same folder of `a` was open. */
  predicate OnlyOpens(a: seq<TreeNode>, b: seq<TreeNode>)
    decreases a
  {
    |a| == |b| &&
    (a != [] ==>
      (match (a[0], b[0])
       case (Folder(_, c, e), Folder(_, d, f)) => (e ==> f) && OnlyOpens(c, d)
       case _ => true)
      && OnlyOpens(a[1..], b[1..]))
  }

  lemma {:induction false} SameShapeReflexive(a: seq<TreeNode>)
    ensures SameShape(a, a) && OnlyOpens(a, a)
    decreases a
  {
    if a != [] {
      SameShapeReflexive(a[1..]);
      if a[0].Folder? {
        SameShapeReflexive(a[0].children);
      }
    }
  }

  /** `expandAllFolders` (flag true) and `collapseAllFolders` (flag false): every
      folder at every depth gets the flag; nothing else changes. */
  function SetAll(nodes: seq<TreeNode>, flag: bool): (r: seq<TreeNode>)
    ensures SameShape(nodes, r)
    ensures AllFlags(r, flag)
    decreases nodes
  {
    if nodes == [] then []
    else
      var head := match nodes[0]
        case Note(_) => nodes[0]
        case Folder(n, c, _) => Folder(n, SetAll(c, flag), flag);
      var r := [head] + SetAll(nodes[1..], flag);
      assert r[1..] == SetAll(nodes[1..], flag);
      r
  }

  /** A tree of the same shape whose folders all carry `flag` is the one `SetAll`
      produces: the operation is determined by its two properties. */
  lemma {:induction false} SetAllUnique(nodes: seq<TreeNode>, t: seq<TreeNode>, flag: bool)
    requires SameShape(nodes, t) && AllFlags(t, flag)
    ensures t == SetAll(nodes, flag)
    decreases nodes
  {
    if nodes != [] {
      SetAllUnique(nodes[1..], t[1..], flag);
      if nodes[0].Folder? {
        SetAllUnique(nodes[0].children, t[0].children, flag);
      }
      assert t == [t[0]] + t[1..];
    }
  }

  /** The node a path leads to, if it leads anywhere. */
  function At(nodes: seq<TreeNode>, path: seq<nat>): Option<TreeNode>
    decreases path
  {
    if path == [] || path[0] >= |nodes| then None
    else if |path| == 1 then Some(nodes[path[0]])
    else match nodes[path[0]]
      case Note(_) => None
      case Folder(_, c, _) => At(c, path[1..])
  }

  /** The flag of the folder a path leads to. */
  function FlagAt(nodes: seq<TreeNode>, path: seq<nat>): Option<bool> {
    match At(nodes, path)
    case Some(Folder(_, _, e)) => Some(e)
    case _ => None
  }

  /** `toggleFolder` on the node at `path`: a folder's flag is flipped, and a note
      (or a path leading nowhere) leaves the tree as it is. */
  function Toggle(nodes: seq<TreeNode>, path: seq<nat>): (r: seq<TreeNode>)
    ensures SameShape(nodes, r)
    ensures !(At(nodes, path).Some? && At(nodes, path).value.Folder?) ==> r == nodes
    ensures At(nodes, path).Some? && At(nodes, path).value.Folder? ==>
      var f := At(nodes, path).value;
      At(r, path) == Some(Folder(f.name, f.children, !f.expanded))
    decreases path
  {
    SameShapeReflexive(nodes);
    if path == [] || path[0] >= |nodes| then nodes
    else
      var i := path[0];
      match nodes[i]
      case Note(_) => nodes
      case Folder(n, c, e) =>
        SameShapeReflexive(c);
        var r := nodes[i := if |path| == 1 then Folder(n, c, !e) else Folder(n, Toggle(c, path[1..]), e)];
        SameShapeUpdate(nodes, i, r[i]);
        r
  }

  /** Replacing one node by one of the same shape keeps the shape of the level. */
  lemma {:induction false} SameShapeUpdate(nodes: seq<TreeNode>, i: nat, x: TreeNode)
    requires i < |nodes| && SameShape(nodes, nodes) && SameShape([nodes[i]], [x])
    ensures SameShape(nodes, nodes[i := x])
    decreases nodes
  {
    if i == 0 {
      assert nodes[i := x][1..] == nodes[1..];
    } else {
      assert nodes[i := x][1..] == nodes[1..][i - 1 := x];
      assert nodes[1..][i - 1] == nodes[i];
      SameShapeUpdate(nodes[1..], i - 1, x);
    }
  }

  /** Toggling touches no other folder. */
  lemma {:induction false} ToggleOthers(nodes: seq<TreeNode>, path: seq<nat>, other: seq<nat>)
    requires other != path
    ensures FlagAt(Toggle(nodes, path), other) == FlagAt(nodes, other)
    decreases path
  {
    if path != [] && path[0] < |nodes| && nodes[path[0]].Folder? && other != [] && other[0] == path[0] && |other| > 1 && |path| > 1 {
      var f := nodes[path[0]];
      ToggleOthers(f.children, path[1..], other[1..]);
    }
  }

  /** Toggling the same folder twice gives the tree back. */
  lemma {:induction false} ToggleTwice(nodes: seq<TreeNode>, path: seq<nat>)
    ensures Toggle(Toggle(nodes, path), path) == nodes
    decreases path
  {
    if path != [] && path[0] < |nodes| && nodes[path[0]].Folder? && |path| > 1 {
      ToggleTwice(nodes[path[0]].children, path[1..]);
    }
  }

  /** `expandPathToNote`: depth-first, a note with the target id stops the search;
      a folder whose children hold it is opened on the way back; without a match
      the tree is left alone and the answer is false. */
  function ExpandPath(nodes: seq<TreeNode>, id: string): (r: Expanded)
    ensures r.found <==> Contains(nodes, id)
    ensures !r.found ==> r.nodes == nodes
    ensures SameShape(nodes, r.nodes) && OnlyOpens(nodes, r.nodes)
    decreases nodes
  {
    SameShapeReflexive(nodes);
    if nodes == [] then Expanded(false, [])
    else
      match nodes[0]
      case Note(x) =>
        if x == id then Expanded(true, nodes)
        else
          var t := ExpandPath(nodes[1..], id);
          var r := [nodes[0]] + t.nodes;
          assert r[1..] == t.nodes;
          Expanded(t.found, r)
      case Folder(n, c, e) =>
        var inner := ExpandPath(c, id);
        if inner.found then
          var r := [Folder(n, inner.nodes, true)] + nodes[1..];
          assert r[1..] == nodes[1..];
          Expanded(true, r)
        else
          var t := ExpandPath(nodes[1..], id);
          var r := [nodes[0]] + t.nodes;
          assert r[1..] == t.nodes;
          Expanded(t.found, r)
  }

  /** The path of the first note with this id in depth-first order: an
      independent description of where `expandPathToNote` stops. */
  function FirstPath(nodes: seq<TreeNode>, id: string): (r: Option<seq<nat>>)
    ensures r.Some? <==> Contains(nodes, id)
    ensures r.Some? ==> r.value != [] && At(nodes, r.value) == Some(Note(id))
    decreases nodes
  {
    if nodes == [] then None
    else
      var here: Option<seq<nat>> := match nodes[0]
        case Note(x) => if x == id then Some([0]) else None
        case Folder(_, c, _) =>
          var p := FirstPath(c, id);
          if p.Some? then Some([0] + p.value) else None;
      if here.Some? then
        assert [0] + here.value[1..] == here.value;
        here
      else
        var p := FirstPath(nodes[1..], id);
        if p.Some? then
          var q := [p.value[0] + 1] + p.value[1..];
          AtShift(nodes, q);
          assert [q[0] - 1] + q[1..] == p.value;
          Some(q)
        else None
  }

  /** A path that does not start at the first node is a path into the rest. */
  lemma AtShift(nodes: seq<TreeNode>, q: seq<nat>)
    requires q != [] && q[0] >= 1 && nodes != []
    ensures At(nodes, q) == At(nodes[1..], [q[0] - 1] + q[1..])
  {
    assert ([q[0] - 1] + q[1..])[1..] == q[1..];
  }

  /** `q` names a folder strictly above the node `p` leads to. */
  predicate Above(q: seq<nat>, p: seq<nat>) {
    q != [] && |q| < |p| && q == p[..|q|]
  }

  lemma AboveShift(q: seq<nat>, p: seq<nat>)
    requires q != [] && p != [] && q[0] >= 1 && p[0] >= 1
    ensures Above(q, p) <==> Above([q[0] - 1] + q[1..], [p[0] - 1] + p[1..])
  {
    var q' := [q[0] - 1] + q[1..];
    var p' := [p[0] - 1] + p[1..];
    if Above(q, p) {
      assert forall k :: 0 <= k < |q'| ==> q'[k] == p'[k];
    }
    if Above(q', p') {
      forall k | 0 <= k < |q|
        ensures q[k] == p[k]
      {
        assert q'[k] == p'[k];
      }
    }
  }

  lemma AboveDescend(q: seq<nat>, p: seq<nat>)
    requires |q| > 1 && p != [] && q[0] == 0 && p[0] == 0
    ensures Above(q, p) <==> Above(q[1..], p[1..])
  {
    if Above(q[1..], p[1..]) {
      assert forall k :: 1 <= k < |q| ==> q[k] == q[1..][k - 1] && p[k] == p[1..][k - 1];
    }
  }

  /** `expandPathToNote` opens exactly the folders above the first matching note
      and leaves every other flag as it was. */
  lemma {:induction false} ExpandPathFlags(nodes: seq<TreeNode>, id: string, q: seq<nat>)
    ensures FlagAt(ExpandPath(nodes, id).nodes, q) ==
      (if FirstPath(nodes, id).Some? && Above(q, FirstPath(nodes, id).value) then Some(true) else FlagAt(nodes, q))
    decreases nodes
  {
    if nodes != [] && q != [] {
      var r := ExpandPath(nodes, id);
      var p := FirstPath(nodes, id);
      match nodes[0]
      case Note(x) =>
        if x != id {
          ExpandPathTail(nodes, id, q);
        }
      case Folder(n, c, e) =>
        var inner := ExpandPath(c, id);
        if inner.found {
          if q[0] == 0 && |q| > 1 {
            ExpandPathFlags(c, id, q[1..]);
            AboveDescend(q, p.value);
          }
        } else {
          ExpandPathTail(nodes, id, q);
        }
    }
  }

  /** The first node holds no note with this id. */
  predicate MissesHead(nodes: seq<TreeNode>, id: string)
    requires nodes != []
  {
    match nodes[0]
    case Note(x) => x != id
    case Folder(_, c, _) => !Contains(c, id)
  }

  /** The step of `ExpandPathFlags` where the first node holds no match. */
  lemma {:induction false} ExpandPathTail(nodes: seq<TreeNode>, id: string, q: seq<nat>)
    requires nodes != [] && q != [] && MissesHead(nodes, id)
    ensures FlagAt(ExpandPath(nodes, id).nodes, q) ==
      (if FirstPath(nodes, id).Some? && Above(q, FirstPath(nodes, id).value) then Some(true) else FlagAt(nodes, q))
    decreases nodes, 0
  {
    ExpandSkipsHead(nodes, id);
    FirstPathSkipsHead(nodes, id);
    if q[0] >= 1 {
      ExpandPathFlags(nodes[1..], id, [q[0] - 1] + q[1..]);
      var r := ExpandPath(nodes, id).nodes;
      assert r[1..] == ExpandPath(nodes[1..], id).nodes;
      ShiftedFlag(nodes, r, FirstPath(nodes, id), FirstPath(nodes[1..], id), q);
    } else {
      HeadFlag(nodes, ExpandPath(nodes, id).nodes, q);
    }
  }

  /** Without a match in the first node, the search passes it by unchanged. */
  lemma ExpandSkipsHead(nodes: seq<TreeNode>, id: string)
    requires nodes != [] && MissesHead(nodes, id)
    ensures ExpandPath(nodes, id).nodes == [nodes[0]] + ExpandPath(nodes[1..], id).nodes
  {
  }

  /** Without a match in the first node, the first match is the one in the rest,
      one position further along. */
  lemma FirstPathSkipsHead(nodes: seq<TreeNode>, id: string)
    requires nodes != [] && MissesHead(nodes, id)
    ensures FirstPath(nodes, id).Some? <==> FirstPath(nodes[1..], id).Some?
    ensures FirstPath(nodes, id).Some? ==>
      var p := FirstPath(nodes, id).value;
      p[0] >= 1 && [p[0] - 1] + p[1..] == FirstPath(nodes[1..], id).value
  {
    if FirstPath(nodes[1..], id).Some? {
      var pt := FirstPath(nodes[1..], id).value;
      assert [pt[0] + 1 - 1] + pt[1..] == pt;
    }
  }

  /** Two levels that agree on their first node agree on its flag. */
  lemma HeadFlag(a: seq<TreeNode>, b: seq<TreeNode>, q: seq<nat>)
    requires a != [] && b != [] && a[0] == b[0] && q != [] && q[0] == 0
    ensures FlagAt(a, q) == FlagAt(b, q)
  {
  }

  /** A path past the first node: the flag it reads in `b` against `a`, with the
      first match at `p`, follows from the same reading one position on in the rest
      of both levels, with the first match there at `pt`. */
  lemma ShiftedFlag(a: seq<TreeNode>, b: seq<TreeNode>, p: Option<seq<nat>>, pt: Option<seq<nat>>, q: seq<nat>)
    requires a != [] && b != [] && q != [] && q[0] >= 1
    requires p.Some? <==> pt.Some?
    requires p.Some? ==> p.value != [] && p.value[0] >= 1 && [p.value[0] - 1] + p.value[1..] == pt.value
    requires var q' := [q[0] - 1] + q[1..];
      FlagAt(b[1..], q') == (if pt.Some? && Above(q', pt.value) then Some(true) else FlagAt(a[1..], q'))
    ensures FlagAt(b, q) == (if p.Some? && Above(q, p.value) then Some(true) else FlagAt(a, q))
  {
    AtShift(a, q);
    AtShift(b, q);
    if p.Some? {
      AboveShift(q, p.value);
    }
  }

  /** `trackNode`: `note-<id>` for a note and `folder-<name>-<index>` for a folder. */
  function TrackKey(index: nat, node: TreeNode): string {
    match node
    case Note(id) => "note-" + id
    case Folder(name, _, _) => "folder-" + name + "-" + Decimal(index)
  }

  /** Equal keys come from equal notes, or from folders of the same name at the
      same index. */
  lemma TrackKeyInjective(i: nat, a: TreeNode, j: nat, b: TreeNode)
    ensures TrackKey(i, a) == TrackKey(j, b) ==>
      && (a.Note? <==> b.Note?)
      && (a.Note? ==> a == b)
      && (a.Folder? ==> a.name == b.name && i == j)
  {
    var ka := TrackKey(i, a);
    var kb := TrackKey(j, b);
    if a.Note? != b.Note? {
      assert ka[0] != kb[0];
    } else if a.Note? {
      assert a.id == ka[5..] && b.id == kb[5..];
    } else if ka == kb {
      assert ka[7..] == a.name + "-" + Decimal(i);
      assert kb[7..] == b.name + "-" + Decimal(j);
      assert '-' !in Decimal(i) && '-' !in Decimal(j) by {
        assert !IsDigit('-');
      }
      SplitAtLast(a.name, Decimal(i), b.name, Decimal(j), '-');
      DecimalInjective(i, j);
    }
  }

  /** On one level whose notes have distinct ids, the keys are distinct, whatever
      the folder names. */
  lemma TrackKeysDistinct(nodes: seq<TreeNode>)
    requires forall i, j :: 0 <= i < j < |nodes| && nodes[i].Note? && nodes[j].Note? ==> nodes[i].id != nodes[j].id
    ensures forall i, j :: 0 <= i < j < |nodes| ==> TrackKey(i, nodes[i]) != TrackKey(j, nodes[j])
  {
    forall i, j | 0 <= i < j < |nodes|
      ensures TrackKey(i, nodes[i]) != TrackKey(j, nodes[j])
    {
      TrackKeyInjective(i, nodes[i], j, nodes[j]);
    }
  }
}
