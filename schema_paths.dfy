/**
 * Editing a schema forest at an index path. The mutable builder appends nodes to one
 * level at a time; these functions say what that does to the forest as a value, and the
 * lemmas let the builder's loop walk down one level while keeping the outcome of
 * `Descend` fixed.
 */
module SchemaPaths {
  import opened SchemaTree

  /** `c` with the level at `ks` replaced by `l`. */
  function SetLevel(c: seq<Tree>, ks: seq<nat>, l: seq<Tree>): seq<Tree>
    requires IsPath(c, ks)
    decreases ks
  {
    if ks == [] then l
    else c[ks[0] := c[ks[0]].(children := SetLevel(c[ks[0]].children, ks[1..], l))]
  }

  /** `x` appended at the end of the level at `ks`. */
  function AppendAt(c: seq<Tree>, ks: seq<nat>, x: Tree): seq<Tree>
    requires IsPath(c, ks)
  {
    SetLevel(c, ks, LevelAt(c, ks) + [x])
  }

  /** `Descend` applied to the level at `ks`. */
  function DescendAt(c: seq<Tree>, ks: seq<nat>, conn: string, segs: seq<Segment>, raw: seq<string>, i: nat): seq<Tree>
    requires IsPath(c, ks) && i < |segs| == |raw|
  {
    SetLevel(c, ks, Descend(LevelAt(c, ks), conn, segs, raw, i))
  }

  /** One more index leads into the level exactly when it is in range, to that node. */
  lemma {:induction false} PathExtend(c: seq<Tree>, ks: seq<nat>, m: nat)
    requires IsPath(c, ks)
    ensures IsPath(c, ks + [m]) <==> m < |LevelAt(c, ks)|
    ensures m < |LevelAt(c, ks)| ==>
      NodeAt(c, ks + [m]) == LevelAt(c, ks)[m] && LevelAt(c, ks + [m]) == LevelAt(c, ks)[m].children
    decreases ks
  {
    if ks == [] {
      assert [m][1..] == [];
    } else {
      assert (ks + [m])[0] == ks[0] && (ks + [m])[1..] == ks[1..] + [m];
      PathExtend(c[ks[0]].children, ks[1..], m);
    }
  }

  /** The level at a node's path is that node's children. */
  lemma {:induction false} LevelOfNode(c: seq<Tree>, ks: seq<nat>)
    requires ks != [] && IsPath(c, ks)
    ensures LevelAt(c, ks) == NodeAt(c, ks).children
    decreases ks
  {
    if |ks| > 1 {
      LevelOfNode(c[ks[0]].children, ks[1..]);
    } else {
      assert ks[1..] == [];
    }
  }

  lemma {:induction false} SetLevelAt(c: seq<Tree>, ks: seq<nat>, l: seq<Tree>)
    requires IsPath(c, ks)
    ensures IsPath(SetLevel(c, ks, l), ks) && LevelAt(SetLevel(c, ks, l), ks) == l
    decreases ks
  {
    if ks != [] {
      SetLevelAt(c[ks[0]].children, ks[1..], l);
    }
  }

  lemma {:induction false} SetLevelSame(c: seq<Tree>, ks: seq<nat>)
    requires IsPath(c, ks)
    ensures SetLevel(c, ks, LevelAt(c, ks)) == c
    decreases ks
  {
    if ks != [] {
      SetLevelSame(c[ks[0]].children, ks[1..]);
    }
  }

  lemma {:induction false} SetLevelTwice(c: seq<Tree>, ks: seq<nat>, l1: seq<Tree>, l2: seq<Tree>)
    requires IsPath(c, ks)
    ensures IsPath(SetLevel(c, ks, l1), ks)
    ensures SetLevel(SetLevel(c, ks, l1), ks, l2) == SetLevel(c, ks, l2)
    decreases ks
  {
    SetLevelAt(c, ks, l1);
    if ks != [] {
      SetLevelTwice(c[ks[0]].children, ks[1..], l1, l2);
    }
  }

  /** Replacing the level below node `k` of the level at `ks` is replacing that node's children. */
  lemma {:induction false} SetLevelExtend(c: seq<Tree>, ks: seq<nat>, k: nat, l: seq<Tree>)
    requires IsPath(c, ks) && k < |LevelAt(c, ks)|
    ensures IsPath(c, ks + [k])
    ensures SetLevel(c, ks + [k], l) ==
            SetLevel(c, ks, LevelAt(c, ks)[k := LevelAt(c, ks)[k].(children := l)])
    decreases ks
  {
    PathExtend(c, ks, k);
    if ks == [] {
      assert [k][1..] == [];
    } else {
      assert (ks + [k])[0] == ks[0] && (ks + [k])[1..] == ks[1..] + [k];
      SetLevelExtend(c[ks[0]].children, ks[1..], k, l);
    }
  }

  /**
   * Growing the level at `ks` (old nodes kept in place, new ones after them) keeps every
   * node path valid and every node's own fields; only the node at `ks` gets more children.
   */
  lemma {:induction false} SetLevelKeeps(c: seq<Tree>, ks: seq<nat>, l: seq<Tree>, q: seq<nat>)
    requires IsPath(c, ks) && q != [] && IsPath(c, q)
    requires |LevelAt(c, ks)| <= |l| && forall j :: 0 <= j < |LevelAt(c, ks)| ==> l[j] == LevelAt(c, ks)[j]
    ensures IsPath(SetLevel(c, ks, l), q)
    ensures SameNode(NodeAt(SetLevel(c, ks, l), q), NodeAt(c, q))
    ensures |NodeAt(SetLevel(c, ks, l), q).children| ==
            if q == ks then |l| else |NodeAt(c, q).children|
    decreases ks
  {
    var d := SetLevel(c, ks, l);
    if ks == [] {
      assert d[q[0]] == c[q[0]];
    } else if q[0] != ks[0] {
      assert d[q[0]] == c[q[0]];
    } else {
      var a := ks[0];
      assert d[a].children == SetLevel(c[a].children, ks[1..], l);
      if |q| == 1 {
        assert q == ks <==> ks[1..] == [] by {
          if ks[1..] == [] {
            assert ks == [a];
          }
        }
      } else {
        assert q == ks <==> q[1..] == ks[1..] by {
          if q[1..] == ks[1..] {
            assert q == [a] + q[1..] && ks == [a] + ks[1..];
          }
        }
        SetLevelKeeps(c[a].children, ks[1..], l, q[1..]);
      }
    }
  }

  /** `SetLevelKeeps` for an append, for every node path at once. */
  lemma AppendKeepsAll(c: seq<Tree>, ks: seq<nat>, x: Tree)
    requires IsPath(c, ks)
    ensures forall q :: q != [] && IsPath(c, q) ==>
      IsPath(AppendAt(c, ks, x), q) &&
      SameNode(NodeAt(AppendAt(c, ks, x), q), NodeAt(c, q)) &&
      |NodeAt(AppendAt(c, ks, x), q).children| ==
        if q == ks then |LevelAt(c, ks)| + 1 else |NodeAt(c, q).children|
  {
    forall q | q != [] && IsPath(c, q)
      ensures IsPath(AppendAt(c, ks, x), q)
      ensures SameNode(NodeAt(AppendAt(c, ks, x), q), NodeAt(c, q))
      ensures |NodeAt(AppendAt(c, ks, x), q).children| ==
        if q == ks then |LevelAt(c, ks)| + 1 else |NodeAt(c, q).children|
    {
      SetLevelKeeps(c, ks, LevelAt(c, ks) + [x], q);
    }
  }

  /** After `AppendAt` the new node sits at the end of the level, one index past the old ones. */
  lemma AppendAtNew(c: seq<Tree>, ks: seq<nat>, x: Tree)
    requires IsPath(c, ks)
    ensures var n := |LevelAt(c, ks)|;
            IsPath(AppendAt(c, ks, x), ks + [n]) && NodeAt(AppendAt(c, ks, x), ks + [n]) == x
    ensures !IsPath(c, ks + [|LevelAt(c, ks)|])
  {
    var l := LevelAt(c, ks) + [x];
    SetLevelAt(c, ks, l);
    PathExtend(SetLevel(c, ks, l), ks, |LevelAt(c, ks)|);
    PathExtend(c, ks, |LevelAt(c, ks)|);
  }

  /** Appending a root keeps the number of roots plus one; appending deeper keeps it. */
  lemma AppendAtRoots(c: seq<Tree>, ks: seq<nat>, x: Tree)
    requires IsPath(c, ks)
    ensures |AppendAt(c, ks, x)| == if ks == [] then |c| + 1 else |c|
  {
  }

  /**
   * Marking root `k` queryable: every path stays valid, that root gets the flag and every
   * other node is unchanged.
   */
  lemma MarkRootKeeps(c: seq<Tree>, k: nat, q: seq<nat>)
    requires k < |c| && q != [] && IsPath(c, q)
    ensures var d := c[k := c[k].(queryable := true)];
            IsPath(d, q) &&
            NodeAt(d, q) == if q == [k] then NodeAt(c, q).(queryable := true) else NodeAt(c, q)
  {
    var d := c[k := c[k].(queryable := true)];
    assert d[q[0]].children == c[q[0]].children;
    if |q| == 1 {
      assert q == [q[0]];
    } else {
      assert q != [k];
    }
  }

  /**
   * One loop step of the builder: locating segment `i` in the level at `ks` and moving to
   * the node found or appended leaves the final outcome unchanged.
   */
  lemma DescendAtStep(c: seq<Tree>, ks: seq<nat>, conn: string, segs: seq<Segment>, raw: seq<string>, i: nat)
    requires IsPath(c, ks) && i + 1 < |segs| == |raw|
    ensures var (lvl, k) := Locate(LevelAt(c, ks), conn, segs[i], NodePath(i, raw));
            IsPath(SetLevel(c, ks, lvl), ks) &&
            IsPath(SetLevel(c, ks, lvl), ks + [k]) &&
            DescendAt(c, ks, conn, segs, raw, i) == DescendAt(SetLevel(c, ks, lvl), ks + [k], conn, segs, raw, i + 1)
  {
    var (lvl, k) := Locate(LevelAt(c, ks), conn, segs[i], NodePath(i, raw));
    var c1 := SetLevel(c, ks, lvl);
    SetLevelAt(c, ks, lvl);
    PathExtend(c1, ks, k);
    var below := Descend(lvl[k].children, conn, segs, raw, i + 1);
    SetLevelExtend(c1, ks, k, below);
    SetLevelTwice(c, ks, lvl, lvl[k := lvl[k].(children := below)]);
  }
}
