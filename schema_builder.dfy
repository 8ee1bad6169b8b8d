/**
 * The imperative schema-tree builder of the metadata service: `RestSchemaNode` objects
 * whose children lists grow in place, the root list, and the loops of
 * `generateSourceSchema`, `getLeafNodeParent`, `createSchemaNodePath` and
 * `getMatchingNode`. Each method is proved to compute the value-level definitions of
 * module `SchemaTree`.
 */
module SchemaBuilder {
  import opened Results
  import opened JavaStrings
  import opened SchemaTree
  import opened SchemaPaths

  /** `RestSchemaNode`: a node of the source schema tree, whose children list grows in place. */
  class SchemaNode {
    var connectionName: string
    var name: string
    var kind: string
    var path: string
    var queryable: bool
    var children: seq<SchemaNode>

    constructor (connectionName: string, name: string, kind: string)
      ensures this.connectionName == connectionName && this.name == name && this.kind == kind
      ensures path == "" && !queryable && children == []
    {
      this.connectionName := connectionName;
      this.name := name;
      this.kind := kind;
      path := "";
      queryable := false;
      children := [];
    }

    /** The node as a value, for a node without children. */
    function Childless(): Tree
      reads this
    {
      Tree(connectionName, name, kind, path, queryable, [])
    }
  }

  /** `n` carries the fields of `t` and as many children. */
  predicate Mirrors(n: SchemaNode, t: Tree)
    reads n
  {
    n.connectionName == t.connectionName && n.name == t.name && n.kind == t.kind &&
    n.path == t.path && n.queryable == t.queryable && |n.children| == |t.children|
  }

  /** What `getMatchingNode` compares. */
  predicate NodeMatches(n: SchemaNode, sourceName: string, name: string, kind: string)
    reads n
  {
    n.connectionName == sourceName && n.name == name && n.kind == kind
  }

  /** Every node of `s` mirrors the tree of `c` at its index path. */
  ghost predicate Mirrored(s: set<SchemaNode>, pos: map<SchemaNode, seq<nat>>, c: seq<Tree>)
    reads s
  {
    forall n {:trigger pos[n]} :: n in s ==>
      n in pos && pos[n] != [] && IsPath(c, pos[n]) && Mirrors(n, NodeAt(c, pos[n]))
  }

  /** Child `i` of every node of `s` sits one level below it, at index `i`. */
  ghost predicate Linked(s: set<SchemaNode>, pos: map<SchemaNode, seq<nat>>)
    reads s
  {
    forall n {:trigger n in s} :: n in s ==>
      n in pos && (forall i :: 0 <= i < |n.children| ==> n.children[i] in pos && pos[n.children[i]] == pos[n] + [i])
  }

  /** No two nodes share an index path. */
  ghost predicate Distinct(pos: map<SchemaNode, seq<nat>>)
  {
    forall m, n :: m in pos && n in pos && pos[m] == pos[n] ==> m == n
  }

  /** Root `i` sits at index path `[i]`. */
  ghost predicate Rooted(roots: seq<SchemaNode>, pos: map<SchemaNode, seq<nat>>)
  {
    forall i :: 0 <= i < |roots| ==> roots[i] in pos && pos[roots[i]] == [i]
  }

  /**
   * The node graph `pos.Keys` with roots `roots` is the forest `c`: node by node, level by
   * level, with no node in two places.
   */
  ghost predicate Forest(roots: seq<SchemaNode>, pos: map<SchemaNode, seq<nat>>, c: seq<Tree>)
    reads pos.Keys
  {
    |roots| == |c| && Rooted(roots, pos) &&
    Mirrored(pos.Keys, pos, c) && Linked(pos.Keys, pos) && Distinct(pos)
  }

  /**
   * The list of root nodes that `generateSourceSchema` fills. `Contents` is the forest as a
   * value and `Pos` gives every node reachable from the roots its index path; every node
   * mirrors the tree at its path, so a change to one node is a change to one place of
   * `Contents`.
   */
  class SchemaForest {
    var roots: seq<SchemaNode>
    ghost var Pos: map<SchemaNode, seq<nat>>
    ghost var Contents: seq<Tree>

    ghost predicate Valid()
      reads this, Pos.Keys
    {
      Forest(roots, Pos, Contents)
    }

    constructor ()
      ensures Valid() && roots == [] && Pos == map[] && Contents == []
    {
      roots := [];
      Pos := map[];
      Contents := [];
    }

    /** The nodes of the level at `ks`, in order: the roots, or the children of the node there. */
    ghost predicate LevelNodes(nodes: seq<SchemaNode>, ks: seq<nat>)
      reads this
    {
      IsPath(Contents, ks) && |nodes| == |LevelAt(Contents, ks)| &&
      forall j :: 0 <= j < |nodes| ==> nodes[j] in Pos && Pos[nodes[j]] == ks + [j]
    }

    lemma RootLevel()
      requires Valid()
      ensures LevelNodes(roots, [])
    {
    }

    lemma ChildLevel(parent: SchemaNode)
      requires Valid() && parent in Pos
      ensures LevelNodes(parent.children, Pos[parent])
    {
      LevelOfNode(Contents, Pos[parent]);
    }

    /** The nodes of a level mirror the trees of that level one by one. */
    lemma LevelMirrors(nodes: seq<SchemaNode>, ks: seq<nat>, j: nat)
      requires Valid() && LevelNodes(nodes, ks) && j < |nodes|
      ensures Mirrors(nodes[j], LevelAt(Contents, ks)[j])
    {
      PathExtend(Contents, ks, j);
    }

    /** `currentNodes.add(node)`. */
    method AddRoot(node: SchemaNode)
      requires Valid() && node !in Pos && node.children == []
      modifies this
      ensures Valid()
      ensures roots == old(roots) + [node] && Pos == old(Pos)[node := [|old(roots)|]]
      ensures Contents == AppendAt(old(Contents), [], node.Childless())
    {
      ghost var r0, c0, p0 := roots, Contents, Pos;
      Pos := Pos[node := [|roots|]];
      Contents := AppendAt(Contents, [], node.Childless());
      roots := roots + [node];
      RootAdded(r0, p0, c0, node);
    }

    /** `parent.addChild(child)`. */
    method AddChild(parent: SchemaNode, child: SchemaNode)
      requires Valid() && parent in Pos && child !in Pos && child.children == []
      modifies this, parent
      ensures Valid()
      ensures roots == old(roots)
      ensures Pos == old(Pos)[child := old(Pos[parent]) + [|old(parent.children)|]]
      ensures parent.children == old(parent.children) + [child]
      ensures Contents == AppendAt(old(Contents), old(Pos[parent]), child.Childless())
    {
      ghost var c0, p0, kids := Contents, Pos, parent.children;
      Detach(roots, p0, c0, parent);
      Pos := p0[child := p0[parent] + [|kids|]];
      Contents := AppendAt(c0, p0[parent], child.Childless());
      parent.children := parent.children + [child];
      ChildAdded(roots, p0, c0, parent, child, kids);
    }

    /** `matchNode.setQueryable(true)` for a root. */
    method MarkQueryable(node: SchemaNode)
      requires Valid() && node in Pos && |Pos[node]| == 1
      modifies this, node
      ensures Valid() && roots == old(roots) && Pos == old(Pos)
      ensures node.queryable && node.children == old(node.children)
      ensures Contents == old(Contents)[Pos[node][0] := old(Contents)[Pos[node][0]].(queryable := true)]
    {
      ghost var c0 := Contents;
      Detach(roots, Pos, c0, node);
      Contents := c0[Pos[node][0] := c0[Pos[node][0]].(queryable := true)];
      node.queryable := true;
      RootMarked(roots, Pos, c0, node);
    }
  }

  /** The node's own fields equal those of `t`. */
  predicate SameNodeFields(n: SchemaNode, t: Tree)
    reads n
  {
    n.connectionName == t.connectionName && n.name == t.name && n.kind == t.kind &&
    n.path == t.path && n.queryable == t.queryable
  }

  /**
   * What the forest invariant says about everything but node `n`, stated so that it survives
   * a change to `n` alone, and what it says about `n` itself.
   */
  lemma Detach(roots: seq<SchemaNode>, pos: map<SchemaNode, seq<nat>>, c: seq<Tree>, n: SchemaNode)
    requires Forest(roots, pos, c) && n in pos
    ensures Mirrored(pos.Keys - {n}, pos, c) && Linked(pos.Keys - {n}, pos)
    ensures pos[n] != [] && IsPath(c, pos[n]) && Mirrors(n, NodeAt(c, pos[n]))
    ensures LevelAt(c, pos[n]) == NodeAt(c, pos[n]).children
    ensures forall i :: 0 <= i < |n.children| ==> n.children[i] in pos && pos[n.children[i]] == pos[n] + [i]
  {
    LevelOfNode(c, pos[n]);
  }

  /** Appending a childless root keeps the invariant. */
  lemma RootAdded(roots: seq<SchemaNode>, pos: map<SchemaNode, seq<nat>>, c: seq<Tree>, node: SchemaNode)
    requires Forest(roots, pos, c) && node !in pos && node.children == []
    ensures Forest(roots + [node], pos[node := [|roots|]], AppendAt(c, [], node.Childless()))
  {
    var p1 := pos[node := [|c|]];
    RootMirrored(pos, c, node);
    LinkedExtend(pos.Keys, pos, node, [|c|]);
    LinkedAdd(pos.Keys, p1, node);
    assert p1.Keys == pos.Keys + {node};
    UnusedPath(pos.Keys, pos, c, [|c|]);
    DistinctExtend(pos, node, [|c|]);
    RootedExtend(roots, pos, node);
  }

  /** After a root is appended, the old nodes and the new one mirror the new forest. */
  lemma RootMirrored(pos: map<SchemaNode, seq<nat>>, c: seq<Tree>, node: SchemaNode)
    requires Mirrored(pos.Keys, pos, c) && node !in pos && node.children == []
    ensures Mirrored(pos[node := [|c|]].Keys, pos[node := [|c|]], AppendAt(c, [], node.Childless()))
    ensures !IsPath(c, [|c|])
  {
    var x := node.Childless();
    var p1 := pos[node := [|c|]];
    AppendMirrored(pos.Keys, pos, c, [], node, [|c|], x);
    AppendAtNew(c, [], x);
    assert [] + [|c|] == [|c|];
    MirroredAdd(pos.Keys, p1, AppendAt(c, [], x), node);
    assert p1.Keys == pos.Keys + {node};
  }

  lemma RootedExtend(roots: seq<SchemaNode>, pos: map<SchemaNode, seq<nat>>, node: SchemaNode)
    requires Rooted(roots, pos) && node !in pos
    ensures Rooted(roots + [node], pos[node := [|roots|]])
  {
  }

  /** A path that leads nowhere in `c` is no node's path. */
  lemma UnusedPath(s: set<SchemaNode>, pos: map<SchemaNode, seq<nat>>, c: seq<Tree>, p: seq<nat>)
    requires Mirrored(s, pos, c) && !IsPath(c, p)
    ensures forall n :: n in s ==> n in pos && pos[n] != p
  {
    forall n | n in s ensures n in pos && pos[n] != p {
      MirroredAt(s, pos, c, n);
    }
  }

  /** One node of a mirrored set. */
  lemma MirroredAt(s: set<SchemaNode>, pos: map<SchemaNode, seq<nat>>, c: seq<Tree>, n: SchemaNode)
    requires Mirrored(s, pos, c) && n in s
    ensures n in pos && pos[n] != [] && IsPath(c, pos[n]) && Mirrors(n, NodeAt(c, pos[n]))
  {
  }

  /**
   * Appending a childless child to `parent` keeps the invariant: the facts `Detach` gave
   * before the parent's children list grew from `kids`, and the parent as it is now.
   */
  lemma ChildAdded(roots: seq<SchemaNode>, pos: map<SchemaNode, seq<nat>>, c: seq<Tree>,
                   parent: SchemaNode, child: SchemaNode, kids: seq<SchemaNode>)
    requires |roots| == |c| && Rooted(roots, pos) && Distinct(pos)
    requires parent in pos && child !in pos && child.children == []
    requires Mirrored(pos.Keys - {parent}, pos, c) && Linked(pos.Keys - {parent}, pos)
    requires pos[parent] != [] && IsPath(c, pos[parent])
    requires SameNodeFields(parent, NodeAt(c, pos[parent]))
    requires LevelAt(c, pos[parent]) == NodeAt(c, pos[parent]).children
    requires |kids| == |NodeAt(c, pos[parent]).children| && parent.children == kids + [child]
    requires forall i :: 0 <= i < |kids| ==> kids[i] in pos && pos[kids[i]] == pos[parent] + [i]
    ensures Forest(roots, pos[child := pos[parent] + [|kids|]], AppendAt(c, pos[parent], child.Childless()))
  {
    var ks := pos[parent];
    var x := child.Childless();
    var p := ks + [|kids|];
    var p1 := pos[child := p];
    var c1 := AppendAt(c, ks, x);
    var others := pos.Keys - {parent};
    AppendMirrored(others, pos, c, ks, child, p, x);
    AppendAtNew(c, ks, x);
    SetLevelKeeps(c, ks, LevelAt(c, ks) + [x], ks);
    AppendAtRoots(c, ks, x);
    MirroredAdd(others, p1, c1, child);
    MirroredAdd(others + {child}, p1, c1, parent);
    LinkedExtend(others, pos, child, p);
    LinkedAdd(others, p1, child);
    LinkedAdd(others + {child}, p1, parent);
    assert p1.Keys == others + {child} + {parent};
    assert forall n :: n in pos ==> pos[n] != p by {
      assert forall n :: n in others ==> IsPath(c, pos[n]);
    }
    DistinctExtend(pos, child, p);
  }

  /** A node outside the map changes nothing for the nodes already linked. */
  lemma LinkedExtend(s: set<SchemaNode>, pos: map<SchemaNode, seq<nat>>, n: SchemaNode, p: seq<nat>)
    requires Linked(s, pos) && n !in pos
    ensures Linked(s, pos[n := p])
  {
  }

  lemma LinkedAdd(s: set<SchemaNode>, pos: map<SchemaNode, seq<nat>>, n: SchemaNode)
    requires Linked(s, pos) && n in pos
    requires forall i :: 0 <= i < |n.children| ==> n.children[i] in pos && pos[n.children[i]] == pos[n] + [i]
    ensures Linked(s + {n}, pos)
  {
  }

  /** A new node at an unused path keeps paths distinct. */
  lemma DistinctExtend(pos: map<SchemaNode, seq<nat>>, n: SchemaNode, p: seq<nat>)
    requires Distinct(pos) && n !in pos
    requires forall m :: m in pos ==> pos[m] != p
    ensures Distinct(pos[n := p])
  {
  }

  /** Marking the root `node` queryable keeps the invariant. */
  lemma RootMarked(roots: seq<SchemaNode>, pos: map<SchemaNode, seq<nat>>, c: seq<Tree>, node: SchemaNode)
    requires |roots| == |c| && Rooted(roots, pos) && Distinct(pos)
    requires node in pos && |pos[node]| == 1 && IsPath(c, pos[node])
    requires Mirrored(pos.Keys - {node}, pos, c) && Linked(pos.Keys - {node}, pos)
    requires Mirrors(node, NodeAt(c, pos[node]).(queryable := true))
    requires forall i :: 0 <= i < |node.children| ==> node.children[i] in pos && pos[node.children[i]] == pos[node] + [i]
    ensures Forest(roots, pos, c[pos[node][0] := c[pos[node][0]].(queryable := true)])
  {
    var k := pos[node][0];
    var c1 := c[k := c[k].(queryable := true)];
    var others := pos.Keys - {node};
    assert pos[node] == [k];
    MarkMirrored(others, pos, c, k);
    MarkRootKeeps(c, k, [k]);
    MirroredAdd(others, pos, c1, node);
    assert pos.Keys == others + {node};
  }

  /** Appending at `ks` keeps every node of `s` mirrored, none of which is at `ks`. */
  lemma AppendMirrored(s: set<SchemaNode>, pos: map<SchemaNode, seq<nat>>, c: seq<Tree>, ks: seq<nat>,
                       child: SchemaNode, p: seq<nat>, x: Tree)
    requires Mirrored(s, pos, c) && IsPath(c, ks) && child !in s
    requires forall n :: n in s ==> n in pos && pos[n] != ks
    ensures Mirrored(s, pos[child := p], AppendAt(c, ks, x))
  {
    AppendKeepsAll(c, ks, x);
  }

  lemma MirroredAdd(s: set<SchemaNode>, pos: map<SchemaNode, seq<nat>>, c: seq<Tree>, n: SchemaNode)
    requires Mirrored(s, pos, c)
    requires n in pos && pos[n] != [] && IsPath(c, pos[n]) && Mirrors(n, NodeAt(c, pos[n]))
    ensures Mirrored(s + {n}, pos, c)
  {
  }

  /** Marking root `k` keeps every node of `s` mirrored, none of which is that root. */
  lemma MarkMirrored(s: set<SchemaNode>, pos: map<SchemaNode, seq<nat>>, c: seq<Tree>, k: nat)
    requires Mirrored(s, pos, c) && k < |c|
    requires forall n :: n in s ==> n in pos && pos[n] != [k]
    ensures Mirrored(s, pos, c[k := c[k].(queryable := true)])
  {
    forall n | n in s ensures IsPath(c[k := c[k].(queryable := true)], pos[n]) &&
                              NodeAt(c[k := c[k].(queryable := true)], pos[n]) == NodeAt(c, pos[n]) {
      MarkRootKeeps(c, k, pos[n]);
    }
  }

  // ---------------------------------------------------------------- the builder's loops

  /** `getMatchingNode`: the first node of `nodes` with that connection, name and type. */
  method GetMatchingNode(sourceName: string, name: string, kind: string, nodes: seq<SchemaNode>)
    returns (matched: SchemaNode?, ghost at: int)
    ensures -1 <= at < |nodes| && matched == (if at < 0 then null else nodes[at])
    ensures at >= 0 ==> NodeMatches(nodes[at], sourceName, name, kind)
    ensures forall j :: 0 <= j < |nodes| && (at < 0 || j < at) ==> !NodeMatches(nodes[j], sourceName, name, kind)
    ensures matched != null ==> matched in nodes && NodeMatches(matched, sourceName, name, kind)
    ensures matched == null <==> forall j :: 0 <= j < |nodes| ==> !NodeMatches(nodes[j], sourceName, name, kind)
  {
    matched, at := null, -1;
    var i := 0;
    while i < |nodes|
      invariant 0 <= i <= |nodes|
      invariant forall j :: 0 <= j < i ==> !NodeMatches(nodes[j], sourceName, name, kind)
    {
      var node := nodes[i];
      if node.connectionName == sourceName && node.name == name && node.kind == kind {
        matched, at := node, i;
        break;
      }
      i := i + 1;
    }
  }

  /** The segments of `parts`, each followed by a `/`. */
  function Terminated(parts: seq<string>): string
  {
    if parts == [] then "" else Terminated(parts[..|parts| - 1]) + parts[|parts| - 1] + [FORWARD_SLASH]
  }

  lemma {:induction false} TerminatedJoin(parts: seq<string>, x: string)
    ensures Terminated(parts) + x == Join(parts + [x], FORWARD_SLASH)
    decreases |parts|
  {
    if parts != [] {
      var init, last := parts[..|parts| - 1], parts[|parts| - 1];
      TerminatedJoin(init, last);
      assert init + [last] == parts;
      JoinSnoc(parts, x, FORWARD_SLASH);
    }
  }

  /** `createSchemaNodePath`: the loop that writes the node path of segment `iPosn`. */
  method CreateSchemaNodePath(iPosn: nat, segments: seq<string>) returns (path: string)
    ensures path == NodePath(iPosn, segments)
  {
    path := "";
    if |segments| > 0 {
      var i := 0;
      while i < |segments|
        invariant 0 <= i <= |segments| && i <= iPosn
        invariant path == Terminated(segments[..i])
      {
        if i < iPosn {
          path := path + segments[i] + [FORWARD_SLASH];
          assert segments[..i + 1][..i] == segments[..i];
        } else {
          TerminatedJoin(segments[..i], segments[i]);
          assert segments[..i] + [segments[i]] == segments[..i + 1];
          path := path + segments[i];
          return;
        }
        i := i + 1;
      }
      assert segments[..i] == segments;
      TerminatedJoin(segments[..|segments| - 1], segments[|segments| - 1]);
      assert segments[..|segments| - 1] + [segments[|segments| - 1]] == segments;
      assert segments[..|segments|][..|segments| - 1] == segments[..|segments| - 1];
    }
  }

  /** The first node `MatchIndex` finds is the one the loop of `getMatchingNode` stops at. */
  lemma FirstMatch(level: seq<Tree>, conn: string, s: Segment, k: int)
    requires -1 <= k < |level|
    requires k >= 0 ==> Matches(level[k], conn, s)
    requires forall j :: 0 <= j < |level| && (k < 0 || j < k) ==> !Matches(level[j], conn, s)
    ensures k == MatchIndex(level, conn, s)
  {
    var m := MatchIndex(level, conn, s);
    if k >= 0 && m >= 0 {
      assert !(k < m) && !(m < k);
    }
  }

  /** A new node for segment `i` of `segments`, with its path set and no children yet. */
  method NewSchemaNode(sourceName: string, seg: Segment, queryable: bool, i: nat, segments: seq<string>)
    returns (node: SchemaNode)
    ensures fresh(node) && node.children == []
    ensures node.Childless() == Tree(sourceName, seg.name, seg.kind, NodePath(i, segments), queryable, [])
  {
    node := new SchemaNode(sourceName, seg.name, seg.kind);
    node.queryable := queryable;
    var path := CreateSchemaNodePath(i, segments);
    node.path := path;
  }

  /**
   * The root level of `getLeafNodeParent`: the root for segment `i`, appended as a new
   * container when there is none.
   */
  method LocateRoot(f: SchemaForest, sourceName: string, seg: Segment, i: nat, segments: seq<string>)
    returns (matched: SchemaNode)
    requires f.Valid()
    modifies f
    ensures f.Valid() && fresh(f.Pos.Keys - old(f.Pos.Keys))
    ensures var loc := Locate(old(f.Contents), sourceName, seg, NodePath(i, segments));
            f.Contents == loc.0 && matched in f.Pos && f.Pos[matched] == [loc.1]
  {
    f.RootLevel();
    ghost var loc := Locate(f.Contents, sourceName, seg, NodePath(i, segments));
    var found, at := GetMatchingNode(sourceName, seg.name, seg.kind, f.roots);
    MatchedAt(f, f.roots, [], sourceName, seg, at);
    if found == null {
      LocateNew(f.Contents, sourceName, seg, NodePath(i, segments));
      var node := NewSchemaNode(sourceName, seg, false, i, segments);
      f.AddRoot(node);
      matched := node;
    } else {
      matched := found;
    }
  }

  /**
   * A lower level of `getLeafNodeParent`: the child of `parent` for segment `i`, appended
   * as a new container when there is none.
   */
  method LocateChild(f: SchemaForest, sourceName: string, seg: Segment, parent: SchemaNode, i: nat, segments: seq<string>)
    returns (matched: SchemaNode)
    requires f.Valid() && parent in f.Pos
    modifies f, parent
    ensures f.Valid() && fresh(f.Pos.Keys - old(f.Pos.Keys))
    ensures IsPath(old(f.Contents), old(f.Pos[parent]))
    ensures var ks := old(f.Pos[parent]);
            var loc := Locate(LevelAt(old(f.Contents), ks), sourceName, seg, NodePath(i, segments));
            f.Contents == SetLevel(old(f.Contents), ks, loc.0) && matched in f.Pos && f.Pos[matched] == ks + [loc.1]
  {
    ghost var ks := f.Pos[parent];
    f.ChildLevel(parent);
    ghost var c0 := f.Contents;
    ghost var level := LevelAt(c0, ks);
    var found, at := GetMatchingNode(sourceName, seg.name, seg.kind, parent.children);
    MatchedAt(f, parent.children, ks, sourceName, seg, at);
    if found == null {
      LocateNew(level, sourceName, seg, NodePath(i, segments));
      var node := NewSchemaNode(sourceName, seg, false, i, segments);
      f.AddChild(parent, node);
      matched := node;
    } else {
      SetLevelSame(c0, ks);
      matched := found;
    }
  }

  /** One level of `getLeafNodeParent`: the roots when there is no parent yet, else its children. */
  method LocateNode(f: SchemaForest, sourceName: string, seg: Segment, parent: SchemaNode?, ghost ks: seq<nat>, i: nat, segments: seq<string>)
    returns (matched: SchemaNode)
    requires f.Valid()
    requires parent == null ==> ks == []
    requires parent != null ==> parent in f.Pos && f.Pos[parent] == ks
    modifies f, parent
    ensures f.Valid() && fresh(f.Pos.Keys - old(f.Pos.Keys))
    ensures IsPath(old(f.Contents), ks)
    ensures var loc := Locate(LevelAt(old(f.Contents), ks), sourceName, seg, NodePath(i, segments));
            f.Contents == SetLevel(old(f.Contents), ks, loc.0) && matched in f.Pos && f.Pos[matched] == ks + [loc.1]
  {
    if parent == null {
      matched := LocateRoot(f, sourceName, seg, i, segments);
    } else {
      matched := LocateChild(f, sourceName, seg, parent, i, segments);
    }
  }

  /** The index where `getMatchingNode` stops is the one `MatchIndex` gives on the level's trees. */
  lemma MatchedAt(f: SchemaForest, nodes: seq<SchemaNode>, ks: seq<nat>, conn: string, seg: Segment, at: int)
    requires f.Valid() && f.LevelNodes(nodes, ks)
    requires -1 <= at < |nodes|
    requires at >= 0 ==> NodeMatches(nodes[at], conn, seg.name, seg.kind)
    requires forall j :: 0 <= j < |nodes| && (at < 0 || j < at) ==> !NodeMatches(nodes[j], conn, seg.name, seg.kind)
    ensures at == MatchIndex(LevelAt(f.Contents, ks), conn, seg)
  {
    var level := LevelAt(f.Contents, ks);
    forall j | 0 <= j < |nodes|
      ensures NodeMatches(nodes[j], conn, seg.name, seg.kind) == Matches(level[j], conn, seg)
    {
      f.LevelMirrors(nodes, ks, j);
    }
    FirstMatch(level, conn, seg, at);
  }

  /** With no match, `Locate` appends a container at the end of the level. */
  lemma LocateNew(level: seq<Tree>, conn: string, seg: Segment, path: string)
    requires MatchIndex(level, conn, seg) < 0
    ensures Locate(level, conn, seg, path) == (level + [Container(conn, seg, path)], |level|)
  {
  }

  /** Parsing the segments one more step. */
  lemma ParseStep(raw: seq<string>, i: nat)
    requires i < |raw| && ParseAll(raw[..i]).Ok? && ParseSegment(raw[i]).Ok?
    ensures ParseAll(raw[..i + 1]) == Ok(ParseAll(raw[..i]).value + [ParseSegment(raw[i]).value])
    ensures ParseAll(raw).Ok? ==> ParseAll(raw).value[i] == ParseSegment(raw[i]).value
  {
    var p := raw[..i + 1];
    assert p[..|p| - 1] == raw[..i] && p[|p| - 1] == raw[i];
    if ParseAll(raw).Ok? {
      ParseAllSegment(raw, i);
    }
  }

  /** The first segment that does not parse decides the error of the whole fqn. */
  lemma ParseErr(raw: seq<string>, i: nat)
    requires i < |raw| && ParseAll(raw[..i]).Ok? && ParseSegment(raw[i]).Err?
    ensures ParseAll(raw) == Err(ParseSegment(raw[i]).error)
  {
    assert raw[..i + 1][..i] == raw[..i];
    ParseAllPrefixErr(raw, i + 1);
  }

  /** The leaf step of `generateSourceSchema` below the node at `ks`. */
  function AddLeaf(c: seq<Tree>, ks: seq<nat>, conn: string, raw: seq<string>): Result<seq<Tree>, BuildError>
    requires IsPath(c, ks) && |raw| >= 1
  {
    match ParseSegment(raw[|raw| - 1])
    case Err(e) => Err(e)
    case Ok(s) => Ok(AppendAt(c, ks, Leaf(conn, s, NodePath(|raw| - 1, raw))))
  }

  /**
   * Segment `i` is split into its type and name (either may be missing, which ends the
   * walk) and its node is found or added below `parent`.
   */
  method LocateSegment(f: SchemaForest, sourceName: string, segments: seq<string>, i: nat, parent: SchemaNode?, ghost ks: seq<nat>)
    returns (r: Result<SchemaNode, BuildError>)
    requires f.Valid() && i < |segments| && ParseAll(segments[..i]).Ok?
    requires parent == null ==> ks == []
    requires parent != null ==> parent in f.Pos && f.Pos[parent] == ks
    modifies f, parent
    ensures f.Valid() && fresh(f.Pos.Keys - old(f.Pos.Keys))
    ensures r.Err? ==> ParseAll(segments) == Err(r.error)
    ensures r.Ok? ==> ParseSegment(segments[i]).Ok? && ParseAll(segments[..i + 1]).Ok?
    ensures r.Ok? && ParseAll(segments).Ok? ==> ParseAll(segments).value[i] == ParseSegment(segments[i]).value
    ensures r.Ok? ==> (IsPath(old(f.Contents), ks) &&
      var loc := Locate(LevelAt(old(f.Contents), ks), sourceName, ParseSegment(segments[i]).value, NodePath(i, segments));
      f.Contents == SetLevel(old(f.Contents), ks, loc.0) && r.value in f.Pos && f.Pos[r.value] == ks + [loc.1])
  {
    var kind := SegmentType(segments[i]);
    if kind.Err? {
      ParseErr(segments, i);
      return Err(kind.error);
    }
    var name := SegmentName(segments[i]);
    if name.Err? {
      ParseErr(segments, i);
      return Err(name.error);
    }
    var seg := Segment(kind.value, name.value);
    ParseStep(segments, i);
    var matched := LocateNode(f, sourceName, seg, parent, ks, i, segments);
    return Ok(matched);
  }

  /**
   * One pass of the `getLeafNodeParent` loop: the node for segment `i` is found or added
   * below `parent`; with a single segment it is marked queryable and the parent stays
   * `null`, otherwise it becomes the parent of the next level.
   */
  method WalkLevel(f: SchemaForest, sourceName: string, segments: seq<string>, i: nat, parent: SchemaNode?,
                   ghost c0: seq<Tree>, ghost ks: seq<nat>)
    returns (r: Result<SchemaNode?, BuildError>, ghost ks': seq<nat>, ghost done: seq<Tree>)
    requires f.Valid() && i < (if |segments| > 1 then |segments| - 1 else 1)
    requires Walked(c0, sourceName, segments, i, f.Contents, ks)
    requires i == 0 ==> parent == null
    requires parent == null ==> ks == []
    requires parent != null ==> parent in f.Pos && f.Pos[parent] == ks
    modifies f, f.Pos.Keys
    ensures f.Valid() && fresh(f.Pos.Keys - old(f.Pos.Keys))
    ensures r.Err? ==> InsertFqn(c0, sourceName, segments) == Err(r.error)
    ensures r.Ok? ==> Walked(c0, sourceName, segments, i + 1, f.Contents, ks') == true
    ensures r.Ok? ==> (r.value == null <==> |segments| == 1)
    ensures r.Ok? && |segments| == 1 ==> f.Contents == done && InsertFqn(c0, sourceName, segments) == Ok(done)
    ensures r.Ok? && r.value == null ==> ks' == []
    ensures r.Ok? && r.value != null ==> r.value in f.Pos && f.Pos[r.value] == ks'
  {
    ks' := ks;
    if i >= |segments| {
      return Err(ArrayIndexOutOfBounds(i)), ks', [];
    }
    ghost var c := f.Contents;
    var level := LocateSegment(f, sourceName, segments, i, parent, ks);
    if level.Err? {
      return Err(level.error), ks', [];
    }
    var matchNode := level.value;
    ghost var loc := Locate(LevelAt(c, ks), sourceName, ParseSegment(segments[i]).value, NodePath(i, segments));
    ghost var c1 := f.Contents;
    if |segments| == 1 {
      f.MarkQueryable(matchNode);
      r := Ok(null);
    } else {
      ks' := ks + [loc.1];
      r := Ok(matchNode);
    }
    WalkStep(c0, sourceName, segments, i, c, ks, c1, f.Contents);
    done := f.Contents;
  }

  /**
   * `getLeafNodeParent`: walks the levels of all segments but the last (of the only one, if
   * there is one), reusing or appending a node at each. With one segment the root is marked
   * queryable and there is no parent; otherwise the leaf's parent is returned, below which
   * the leaf step completes `InsertFqn`. A segment without a type or a name ends the walk.
   */
  method GetLeafNodeParent(f: SchemaForest, sourceName: string, segments: seq<string>)
    returns (r: Result<SchemaNode?, BuildError>)
    requires f.Valid()
    modifies f, f.Pos.Keys
    ensures f.Valid() && fresh(f.Pos.Keys - old(f.Pos.Keys))
    ensures r.Err? ==> InsertFqn(old(f.Contents), sourceName, segments) == Err(r.error)
    ensures r == Ok(null) ==> InsertFqn(old(f.Contents), sourceName, segments) == Ok(f.Contents)
    ensures r.Ok? && r.value != null ==>
      |segments| >= 2 && r.value in f.Pos && IsPath(f.Contents, f.Pos[r.value]) &&
      InsertFqn(old(f.Contents), sourceName, segments) == AddLeaf(f.Contents, f.Pos[r.value], sourceName, segments)
  {
    var nLevels := if |segments| > 1 then |segments| - 1 else 1;
    var parentNode: SchemaNode? := null;
    ghost var ks: seq<nat> := [];
    ghost var done: seq<Tree> := [];
    var i := 0;
    while i < nLevels
      invariant 0 <= i <= nLevels
      invariant f.Valid() == true
      invariant fresh(f.Pos.Keys - old(f.Pos.Keys))
      invariant Walked(old(f.Contents), sourceName, segments, i, f.Contents, ks) == true
      invariant i == 0 ==> parentNode == null
      invariant parentNode == null ==> ks == []
      invariant parentNode != null ==> parentNode in f.Pos && f.Pos[parentNode] == ks
      invariant i >= 1 ==> (parentNode == null <==> |segments| == 1)
      invariant i >= 1 && |segments| == 1 ==> f.Contents == done && InsertFqn(old(f.Contents), sourceName, segments) == Ok(done)
    {
      var next;
      next, ks, done := WalkLevel(f, sourceName, segments, i, parentNode, old(f.Contents), ks);
      if next.Err? {
        return Err(next.error);
      }
      parentNode := next.value;
      i := i + 1;
    }
    WalkDone(old(f.Contents), sourceName, segments, f.Contents, ks);
    if |segments| < 2 {
      return Ok(null);
    }
    return Ok(parentNode);
  }

  /**
   * The state of the `getLeafNodeParent` walk over forest `c0` after `i` levels: the forest
   * is `c`, the current parent sits at `ks`, and with several segments what is left of
   * `Descend` is its rest below `ks`. (With one segment, the outcome is carried separately.)
   */
  ghost predicate Walked(c0: seq<Tree>, conn: string, raw: seq<string>, i: nat, c: seq<Tree>, ks: seq<nat>)
  {
    i <= |raw| && ParseAll(raw[..i]).Ok? && IsPath(c, ks) &&
    (i == 0 ==> c == c0 && ks == []) &&
    (|raw| >= 2 && ParseAll(raw).Ok? ==>
      i < |raw| && Descend(c0, conn, ParseAll(raw).value, raw, 0) == DescendAt(c, ks, conn, ParseAll(raw).value, raw, i))
  }

  /**
   * One level of the walk: locating segment `i` at `ks` (and, with a single segment, marking
   * the root found queryable) moves the walk on by one level.
   */
  lemma WalkStep(c0: seq<Tree>, conn: string, raw: seq<string>, i: nat, c: seq<Tree>, ks: seq<nat>, c1: seq<Tree>, c2: seq<Tree>)
    requires Walked(c0, conn, raw, i, c, ks) && i < |raw| && (|raw| == 1 || i < |raw| - 1)
    requires ParseSegment(raw[i]).Ok? && ParseAll(raw[..i + 1]).Ok?
    requires ParseAll(raw).Ok? ==> ParseAll(raw).value[i] == ParseSegment(raw[i]).value
    requires IsPath(c, ks)
    requires var loc := Locate(LevelAt(c, ks), conn, ParseSegment(raw[i]).value, NodePath(i, raw));
             c1 == SetLevel(c, ks, loc.0) &&
             (|raw| == 1 ==> loc.1 < |c1| && c2 == c1[loc.1 := c1[loc.1].(queryable := true)]) &&
             (|raw| != 1 ==> c2 == c1)
    ensures var loc := Locate(LevelAt(c, ks), conn, ParseSegment(raw[i]).value, NodePath(i, raw));
            Walked(c0, conn, raw, i + 1, c2, if |raw| == 1 then ks else ks + [loc.1])
    ensures |raw| == 1 ==> InsertFqn(c0, conn, raw) == Ok(c2)
  {
    var loc := Locate(LevelAt(c, ks), conn, ParseSegment(raw[i]).value, NodePath(i, raw));
    if |raw| == 1 {
      assert raw[..1] == raw;
      OneSegmentWalk(c0, conn, raw, ParseSegment(raw[i]).value, c1, loc.1);
    } else {
      if ParseAll(raw).Ok? {
        DescendAtStep(c, ks, conn, ParseAll(raw).value, raw, i);
      }
      SetLevelAt(c, ks, loc.0);
      PathExtend(c1, ks, loc.1);
    }
  }

  /** With a single segment, marking the located root queryable is all that `InsertFqn` does. */
  lemma OneSegmentWalk(c0: seq<Tree>, conn: string, raw: seq<string>, seg: Segment, c: seq<Tree>, k: nat)
    requires |raw| == 1 && ParseAll(raw).Ok? && ParseAll(raw).value[0] == seg
    requires var loc := Locate(c0, conn, seg, NodePath(0, raw));
             c == loc.0 && k == loc.1
    ensures k < |c| && InsertFqn(c0, conn, raw) == Ok(c[k := c[k].(queryable := true)])
  {
    assert ParseAll(raw).value == [seg];
  }

  /** The walk over all levels of a fqn with several segments leaves the leaf step below `ks`. */
  lemma WalkDone(c0: seq<Tree>, conn: string, raw: seq<string>, c: seq<Tree>, ks: seq<nat>)
    requires Walked(c0, conn, raw, if |raw| > 1 then |raw| - 1 else 1, c, ks)
    ensures |raw| >= 2 ==> IsPath(c, ks) && InsertFqn(c0, conn, raw) == AddLeaf(c, ks, conn, raw)
  {
    if |raw| >= 2 && ParseAll(raw).Ok? {
      ParseAllSegment(raw, |raw| - 1);
    }
  }

  /**
   * The leaf step of `generateSourceSchema`: the last segment becomes a queryable child of
   * `parent`, with the path of the whole fqn; a last segment without a type or a name ends
   * the build.
   */
  method AddLeafNode(f: SchemaForest, sourceName: string, segments: seq<string>, parent: SchemaNode)
    returns (r: Result<(), BuildError>)
    requires f.Valid() && |segments| >= 1 && parent in f.Pos && IsPath(f.Contents, f.Pos[parent])
    modifies f, parent
    ensures f.Valid() && fresh(f.Pos.Keys - old(f.Pos.Keys))
    ensures AddLeaf(old(f.Contents), old(f.Pos[parent]), sourceName, segments) ==
            if r.Ok? then Ok(f.Contents) else Err(r.error)
  {
    var last := segments[|segments| - 1];
    var kind := SegmentType(last);
    if kind.Err? {
      return Err(kind.error);
    }
    var name := SegmentName(last);
    if name.Err? {
      return Err(name.error);
    }
    var node := NewSchemaNode(sourceName, Segment(kind.value, name.value), true, |segments| - 1, segments);
    f.AddChild(parent, node);
    return Ok(());
  }

  /**
   * One table of `generateSourceSchema`: its fqn is walked into the forest and, below the
   * parent found, the leaf is added. The forest becomes `InsertFqn` of the old one.
   */
  method AddTable(f: SchemaForest, sourceName: string, fqn: string) returns (r: Result<(), BuildError>)
    requires f.Valid()
    modifies f, f.Pos.Keys
    ensures f.Valid() && fresh(f.Pos.Keys - old(f.Pos.Keys))
    ensures InsertFqn(old(f.Contents), sourceName, JavaSplit(fqn, FORWARD_SLASH)) ==
            if r.Ok? then Ok(f.Contents) else Err(r.error)
  {
    var segments := JavaSplit(fqn, FORWARD_SLASH);
    var parentNode := GetLeafNodeParent(f, sourceName, segments);
    if parentNode.Err? {
      return Err(parentNode.error);
    }
    if parentNode.value != null {
      var leaf := AddLeafNode(f, sourceName, segments, parentNode.value);
      if leaf.Err? {
        return Err(leaf.error);
      }
    }
    return Ok(());
  }

  /**
   * `generateSourceSchema`: every table's fqn option, in order, is split at `/` and walked
   * into one forest of root nodes. The forest built is `Build` of the options; the first
   * fqn with a segment lacking a type or a name ends the whole call with that error.
   */
  method GenerateSourceSchema(sourceName: string, options: seq<Option<string>>)
    returns (r: Result<SchemaForest, BuildError>)
    ensures r.Ok? ==> fresh(r.value) && r.value.Valid() == true && Build(sourceName, options) == Ok(r.value.Contents)
    ensures r.Err? ==> Build(sourceName, options) == Err(r.error)
  {
    var schemaNodes := new SchemaForest();
    var t := 0;
    while t < |options|
      invariant 0 <= t <= |options|
      invariant fresh(schemaNodes) && fresh(schemaNodes.Pos.Keys)
      invariant schemaNodes.Valid() == true
      invariant Build(sourceName, options[..t]) == Ok(schemaNodes.Contents)
    {
      BuildNext(sourceName, options, t, schemaNodes.Contents);
      if options[t].Some? {
        var added := AddTable(schemaNodes, sourceName, options[t].value);
        if added.Err? {
          BuildPrefixErr(sourceName, options, t + 1);
          return Err(added.error);
        }
      }
      t := t + 1;
    }
    assert options[..t] == options;
    return Ok(schemaNodes);
  }
}
