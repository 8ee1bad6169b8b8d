/**
 * The schema tree that the metadata service builds from the fully-qualified-name table
 * option (`connection=conn1/schema=public/table=customer`), stated on values.
 *
 * A fqn is split on `/` into segments and every segment on `=` into a type and a name.
 * Folding the fqns of a source's tables in order gives an ordered forest: at each level an
 * existing node with the same connection, name and type is reused, otherwise a new
 * container is appended; a multi-segment fqn then appends a queryable leaf below its last
 * container, and a one-segment fqn marks its root queryable. The imperative builder in
 * module `SchemaBuilder` is proved to compute exactly `Build`.
 */
module SchemaTree {
  import opened Results
  import opened JavaStrings

  const FORWARD_SLASH: char := '/'
  const EQUALS: char := '='

  /** The only failure of the builder: an index past the end of a `split` result. */
  datatype BuildError = ArrayIndexOutOfBounds(index: nat)

  /** A parsed `type=name` segment. */
  datatype Segment = Segment(kind: string, name: string)

  /** A schema node as a value; `kind` is the node's type. */
  datatype Tree = Tree(connectionName: string, name: string, kind: string, path: string,
                       queryable: bool, children: seq<Tree>)

  // ---------------------------------------------------------------- segments

  /** `getSegmentType`: the trimmed first piece of `segment.split("=")`. */
  function SegmentType(segment: string): (r: Result<string, BuildError>)
    ensures r.Err? ==> r.error == ArrayIndexOutOfBounds(0)
  {
    var parts := JavaSplit(segment, EQUALS);
    if |parts| < 1 then Err(ArrayIndexOutOfBounds(0)) else Ok(Trim(parts[0]))
  }

  /** `getSegmentName`: the trimmed second piece of `segment.split("=")`. */
  function SegmentName(segment: string): (r: Result<string, BuildError>)
    ensures r.Err? ==> r.error == ArrayIndexOutOfBounds(1)
  {
    var parts := JavaSplit(segment, EQUALS);
    if |parts| < 2 then Err(ArrayIndexOutOfBounds(1)) else Ok(Trim(parts[1]))
  }

  /** Type first, then name, as the builder asks for them. */
  function ParseSegment(segment: string): Result<Segment, BuildError>
  {
    match SegmentType(segment)
    case Err(e) => Err(e)
    case Ok(kind) =>
      match SegmentName(segment)
      case Err(e) => Err(e)
      case Ok(name) => Ok(Segment(kind, name))
  }

  /** The text of `t` up to its first `=`, or all of it. */
  function UpToEquals(t: string): string
  {
    if EQUALS in t then t[..IndexOf(t, EQUALS)] else t
  }

  /** Some character after the first `=` of `segment` is not itself a `=`. */
  predicate HasNameText(segment: string)
  {
    EQUALS in segment &&
    exists j :: IndexOf(segment, EQUALS) < j < |segment| && segment[j] != EQUALS
  }

  /** Every piece of `SplitAll(t, c)` is empty exactly when `t` consists of `c` only. */
  lemma {:induction false} SplitAllBlank(t: string, c: char)
    ensures (forall k :: 0 <= k < |SplitAll(t, c)| ==> SplitAll(t, c)[k] == "")
        <==> (forall j :: 0 <= j < |t| ==> t[j] == c)
    decreases |t|
  {
    if c !in t {
      assert SplitAll(t, c) == [t];
      if |t| > 0 {
        assert t[0] in t;
        assert t[0] != c && SplitAll(t, c)[0] != "";
      }
    } else {
      var i := IndexOf(t, c);
      var rest := t[i + 1..];
      assert SplitAll(t, c) == [t[..i]] + SplitAll(rest, c);
      SplitAllBlank(rest, c);
      assert |t[..i]| == i;
      assert (forall j :: 0 <= j < |t| ==> t[j] == c)
        <==> (i == 0 && forall j :: 0 <= j < |rest| ==> rest[j] == c) by {
        if forall j :: 0 <= j < |t| ==> t[j] == c {
          assert t[0] == c;
          forall j | 0 <= j < |rest| ensures rest[j] == c {
            assert rest[j] == t[i + 1 + j];
          }
        }
        if i == 0 && forall j :: 0 <= j < |rest| ==> rest[j] == c {
          forall j | 0 <= j < |t| ensures t[j] == c {
            if j > 0 {
              assert t[j] == rest[j - 1];
            }
          }
        }
      }
      assert (forall k :: 0 <= k < |SplitAll(t, c)| ==> SplitAll(t, c)[k] == "")
        <==> (i == 0 && forall k :: 0 <= k < |SplitAll(rest, c)| ==> SplitAll(rest, c)[k] == "") by {
        if forall k :: 0 <= k < |SplitAll(t, c)| ==> SplitAll(t, c)[k] == "" {
          assert SplitAll(t, c)[0] == t[..i];
          forall k | 0 <= k < |SplitAll(rest, c)| ensures SplitAll(rest, c)[k] == "" {
            assert SplitAll(t, c)[k + 1] == SplitAll(rest, c)[k];
          }
        }
        if i == 0 && forall k :: 0 <= k < |SplitAll(rest, c)| ==> SplitAll(rest, c)[k] == "" {
          forall k | 0 <= k < |SplitAll(t, c)| ensures SplitAll(t, c)[k] == "" {
            if k > 0 {
              assert SplitAll(t, c)[k] == SplitAll(rest, c)[k - 1];
            }
          }
        }
      }
    }
  }

  /** Without a `=` the segment is its own type, and has no name: the name fails. */
  lemma SegmentParseNoEquals(segment: string)
    requires EQUALS !in segment
    ensures ParseSegment(segment) == Err(ArrayIndexOutOfBounds(1))
  {
    assert JavaSplit(segment, EQUALS) == [segment];
  }

  /** The split of a segment that holds a `=`: the text before it, then the pieces after it. */
  lemma SplitAtFirstEquals(segment: string)
    requires EQUALS in segment
    ensures var f := IndexOf(segment, EQUALS);
            var all := SplitAll(segment, EQUALS);
            all == [segment[..f]] + SplitAll(segment[f + 1..], EQUALS) &&
            JavaSplit(segment, EQUALS) == DropTrailingEmpty(all)
  {
  }

  /** A name text after the first `=` gives the split a non-empty piece past the first. */
  lemma NameTextPiece(segment: string)
    requires HasNameText(segment)
    ensures var all := SplitAll(segment, EQUALS);
            exists k :: 1 <= k < |all| && all[k] != ""
  {
    var f := IndexOf(segment, EQUALS);
    var rest := segment[f + 1..];
    var tail := SplitAll(rest, EQUALS);
    var all := SplitAll(segment, EQUALS);
    SplitAtFirstEquals(segment);
    assert all == [segment[..f]] + tail;
    var j :| f < j < |segment| && segment[j] != EQUALS;
    assert 0 <= j - f - 1 < |rest| && rest[j - f - 1] != EQUALS;
    SplitAllBlank(rest, EQUALS);
    var k :| 0 <= k < |tail| && tail[k] != "";
    assert all[k + 1] == tail[k];
    assert 1 <= k + 1 < |all| && all[k + 1] != "";
  }

  /**
   * A segment with some character other than `=` after its first `=` parses: the type is
   * the trimmed text before the first `=`, the name the trimmed text between the first `=`
   * and the next one (so `a=b=c` has the name `b`).
   */
  lemma SegmentParseWithName(segment: string)
    requires HasNameText(segment)
    ensures var f := IndexOf(segment, EQUALS);
            ParseSegment(segment) == Ok(Segment(Trim(segment[..f]), Trim(UpToEquals(segment[f + 1..]))))
  {
    var f := IndexOf(segment, EQUALS);
    var rest := segment[f + 1..];
    var all := SplitAll(segment, EQUALS);
    SplitAtFirstEquals(segment);
    var parts := JavaSplit(segment, EQUALS);
    NameTextPiece(segment);
    assert |parts| >= 2;
    assert parts[0] == all[0] == segment[..f];
    assert SplitAll(rest, EQUALS)[0] == UpToEquals(rest);
    assert parts[1] == all[1] == UpToEquals(rest);
  }

  /**
   * A segment with nothing but `=` after its first `=` (`table=`, `table==`) fails: on the
   * type when it is made of `=` only, otherwise on the name.
   */
  lemma SegmentParseWithoutName(segment: string)
    requires EQUALS in segment && !HasNameText(segment)
    ensures ParseSegment(segment) ==
      (if forall j :: 0 <= j < |segment| ==> segment[j] == EQUALS
       then Err(ArrayIndexOutOfBounds(0)) else Err(ArrayIndexOutOfBounds(1)))
  {
    var f := IndexOf(segment, EQUALS);
    var rest := segment[f + 1..];
    var tail := SplitAll(rest, EQUALS);
    var all := SplitAll(segment, EQUALS);
    SplitAtFirstEquals(segment);
    var parts := JavaSplit(segment, EQUALS);
    SplitAllBlank(rest, EQUALS);
    forall j | 0 <= j < |rest| ensures rest[j] == EQUALS {
      assert segment[f + 1 + j] == rest[j];
    }
    assert forall m :: 1 <= m < |all| ==> all[m] == tail[m - 1] == "";
    assert |parts| < 2;
    if segment[..f] == "" {
      assert all[0] == "";
      assert |parts| == 0;
      forall j | 0 <= j < |segment| ensures segment[j] == EQUALS {
        if j > 0 {
          assert segment[j] == rest[j - 1];
        }
      }
    } else {
      assert all[0] != "";
      assert |parts| == 1;
      assert segment[0] == segment[..f][0];
      assert segment[0] != EQUALS;
    }
  }

  /**
   * Every segment of a fqn parsed in order; the first failure is the result. Defined on
   * the prefix so that it follows a loop over the segments.
   */
  function ParseAll(raw: seq<string>): (r: Result<seq<Segment>, BuildError>)
    ensures r.Ok? ==> |r.value| == |raw|
  {
    if raw == [] then Ok([])
    else
      match ParseAll(raw[..|raw| - 1])
      case Err(e) => Err(e)
      case Ok(ss) =>
        match ParseSegment(raw[|raw| - 1])
        case Err(e) => Err(e)
        case Ok(s) => Ok(ss + [s])
  }

  /** Once a prefix of the segments fails, the whole fqn fails with that error. */
  lemma {:induction false} ParseAllPrefixErr(raw: seq<string>, i: nat)
    requires i <= |raw| && ParseAll(raw[..i]).Err?
    ensures ParseAll(raw) == ParseAll(raw[..i])
    decreases |raw| - i
  {
    if i < |raw| {
      assert raw[..i + 1][..i] == raw[..i];
      ParseAllPrefixErr(raw, i + 1);
    } else {
      assert raw[..i] == raw;
    }
  }

  /** A segment that does not parse makes the whole fqn fail. */
  lemma ParseAllFails(raw: seq<string>, i: nat)
    requires i < |raw| && ParseSegment(raw[i]).Err?
    ensures ParseAll(raw).Err?
  {
    var p := raw[..i + 1];
    assert p[..i] == raw[..i] && p[i] == raw[i];
    assert ParseAll(p).Err?;
    ParseAllPrefixErr(raw, i + 1);
  }

  /** A fqn that parses is the list of its parsed segments. */
  lemma {:induction false} ParseAllSegment(raw: seq<string>, i: nat)
    requires i < |raw| && ParseAll(raw).Ok?
    ensures ParseSegment(raw[i]) == Ok(ParseAll(raw).value[i])
  {
    var init := raw[..|raw| - 1];
    assert ParseAll(raw).value == ParseAll(init).value + [ParseSegment(raw[|raw| - 1]).value];
    if i < |raw| - 1 {
      assert init[i] == raw[i];
      ParseAllSegment(init, i);
    }
  }

  // ---------------------------------------------------------------- paths

  /**
   * `createSchemaNodePath(iPosn, segments)`: the first `iPosn + 1` segments joined by `/`;
   * past the last segment every segment is followed by a `/`; no segments give "".
   */
  function NodePath(iPosn: nat, segments: seq<string>): string
  {
    if |segments| == 0 then ""
    else if iPosn < |segments| then Join(segments[..iPosn + 1], FORWARD_SLASH)
    else Join(segments, FORWARD_SLASH) + [FORWARD_SLASH]
  }

  /** A node's path is its parent's path, a `/` and its own segment. */
  lemma NodePathStep(i: nat, segments: seq<string>)
    requires i + 1 < |segments|
    ensures NodePath(i + 1, segments) == NodePath(i, segments) + [FORWARD_SLASH] + segments[i + 1]
  {
    assert segments[..i + 2] == segments[..i + 1] + [segments[i + 1]];
    JoinSnoc(segments[..i + 1], segments[i + 1], FORWARD_SLASH);
  }

  /** Every node's path starts with the path of each of its ancestors and a `/`. */
  lemma {:induction false} NodePathPrefix(i: nat, j: nat, segments: seq<string>)
    requires i < j < |segments|
    ensures StartsWith(NodePath(j, segments), NodePath(i, segments) + [FORWARD_SLASH])
    decreases j - i
  {
    NodePathStep(j - 1, segments);
    var p := NodePath(i, segments) + [FORWARD_SLASH];
    if i < j - 1 {
      NodePathPrefix(i, j - 1, segments);
      var q := NodePath(j - 1, segments);
      assert (q + [FORWARD_SLASH] + segments[j])[..|p|] == q[..|p|];
    } else {
      assert (p + segments[j])[..|p|] == p;
    }
  }

  /** The path of the last segment of a fqn is the fqn itself, minus trailing slashes. */
  lemma LeafPathIsFqn(fqn: string)
    requires |JavaSplit(fqn, FORWARD_SLASH)| >= 1
    ensures var segments := JavaSplit(fqn, FORWARD_SLASH);
            NodePath(|segments| - 1, segments) == StripTrailing(fqn, FORWARD_SLASH)
  {
    var segments := JavaSplit(fqn, FORWARD_SLASH);
    assert segments[..|segments|] == segments;
    JoinJavaSplit(fqn, FORWARD_SLASH);
  }

  // ---------------------------------------------------------------- one level

  /** The node `getMatchingNode` is looking for. */
  predicate Matches(t: Tree, conn: string, s: Segment)
  {
    t.connectionName == conn && t.name == s.name && t.kind == s.kind
  }

  /** Index of the first node of `level` that matches, or -1. */
  function MatchIndex(level: seq<Tree>, conn: string, s: Segment): (k: int)
    ensures -1 <= k < |level|
    ensures k >= 0 ==> Matches(level[k], conn, s)
    ensures forall j :: 0 <= j < |level| && (k < 0 || j < k) ==> !Matches(level[j], conn, s)
  {
    if |level| == 0 then -1
    else if Matches(level[0], conn, s) then 0
    else
      var k := MatchIndex(level[1..], conn, s);
      if k < 0 then -1 else k + 1
  }

  /** A new container: not queryable, no children. */
  function Container(conn: string, s: Segment, path: string): Tree
  {
    Tree(conn, s.name, s.kind, path, false, [])
  }

  /** A new leaf: queryable, no children. */
  function Leaf(conn: string, s: Segment, path: string): Tree
  {
    Tree(conn, s.name, s.kind, path, true, [])
  }

  /**
   * One level of `getLeafNodeParent`: the level after the segment is looked up in it,
   * and the index of the node that stands for the segment.
   */
  function Locate(level: seq<Tree>, conn: string, s: Segment, path: string): (r: (seq<Tree>, nat))
    ensures |level| <= |r.0| <= |level| + 1 && r.0[..|level|] == level
    ensures r.1 < |r.0| && Matches(r.0[r.1], conn, s)
    ensures forall j :: 0 <= j < r.1 ==> !Matches(r.0[j], conn, s)
    ensures |r.0| == |level| + 1 ==> r.1 == |level| && r.0[r.1] == Container(conn, s, path)
  {
    var k := MatchIndex(level, conn, s);
    if k >= 0 then (level, k)
    else (level + [Container(conn, s, path)], |level|)
  }

  /** Locating the segment a second time finds the node the first call returned, unchanged. */
  lemma LocateAgain(level: seq<Tree>, conn: string, s: Segment, path: string, path2: string)
    ensures var (lvl, k) := Locate(level, conn, s, path);
            Locate(lvl, conn, s, path2) == (lvl, k)
  {
  }

  // ---------------------------------------------------------------- one fqn

  /** A one-segment fqn: its root, found or appended, becomes queryable. */
  function MarkRoot(forest: seq<Tree>, conn: string, s: Segment, path: string): seq<Tree>
  {
    var (lvl, k) := Locate(forest, conn, s, path);
    lvl[k := lvl[k].(queryable := true)]
  }

  /**
   * The level `level` after the segments `segs[i..]` of a fqn with several segments are
   * placed below it: each segment but the last is located, and below the last container
   * the queryable leaf is appended, without looking for an equal one first.
   */
  function Descend(level: seq<Tree>, conn: string, segs: seq<Segment>, raw: seq<string>, i: nat): seq<Tree>
    requires i < |segs| == |raw|
    decreases |segs| - i
  {
    if i == |segs| - 1 then level + [Leaf(conn, segs[i], NodePath(i, raw))]
    else
      var (lvl, k) := Locate(level, conn, segs[i], NodePath(i, raw));
      lvl[k := lvl[k].(children := Descend(lvl[k].children, conn, segs, raw, i + 1))]
  }

  /**
   * The forest after one table whose fqn was split into the segments `raw`. No segments,
   * or a segment that does not parse, is an error; one segment marks its (found or new)
   * root queryable; more segments go through `Descend`.
   */
  function InsertFqn(forest: seq<Tree>, conn: string, raw: seq<string>): Result<seq<Tree>, BuildError>
  {
    if |raw| == 0 then Err(ArrayIndexOutOfBounds(0))
    else
      match ParseAll(raw)
      case Err(e) => Err(e)
      case Ok(segs) =>
        if |raw| == 1 then Ok(MarkRoot(forest, conn, segs[0], NodePath(0, raw)))
        else Ok(Descend(forest, conn, segs, raw, 0))
  }

  /**
   * `generateSourceSchema` over the fqn options of the tables in order (`None` for a table
   * without one, which is skipped). The first error ends the whole build.
   */
  function Build(conn: string, options: seq<Option<string>>): Result<seq<Tree>, BuildError>
  {
    if options == [] then Ok([])
    else
      match Build(conn, options[..|options| - 1])
      case Err(e) => Err(e)
      case Ok(forest) =>
        match options[|options| - 1]
        case None => Ok(forest)
        case Some(fqn) => InsertFqn(forest, conn, JavaSplit(fqn, FORWARD_SLASH))
  }

  // ---------------------------------------------------------------- measures and relations

  /** Number of queryable nodes. */
  function QueryableCount(ts: seq<Tree>): nat
    decreases ts
  {
    if ts == [] then 0 else NodeQueryableCount(ts[0]) + QueryableCount(ts[1..])
  }

  function NodeQueryableCount(t: Tree): nat
    decreases t
  {
    (if t.queryable then 1 else 0) + QueryableCount(t.children)
  }

  /** The node's own fields, children left aside. */
  predicate SameNode(a: Tree, b: Tree)
  {
    a.connectionName == b.connectionName && a.name == b.name && a.kind == b.kind &&
    a.path == b.path && a.queryable == b.queryable
  }

  /**
   * `g` keeps every node of `f` with its fields at the same position, in the same order,
   * and may hold further nodes after them at every level.
   */
  predicate Extends(f: seq<Tree>, g: seq<Tree>)
    decreases f
  {
    |f| <= |g| &&
    forall i :: 0 <= i < |f| ==> SameNode(f[i], g[i]) && Extends(f[i].children, g[i].children)
  }

  /** Every node was built for connection `conn`. */
  predicate AllFrom(ts: seq<Tree>, conn: string)
    decreases ts
  {
    forall i :: 0 <= i < |ts| ==> ts[i].connectionName == conn && AllFrom(ts[i].children, conn)
  }

  lemma {:induction false} QueryableCountAppend(ts: seq<Tree>, x: Tree)
    ensures QueryableCount(ts + [x]) == QueryableCount(ts) + NodeQueryableCount(x)
  {
    if ts != [] {
      assert (ts + [x])[1..] == ts[1..] + [x];
      QueryableCountAppend(ts[1..], x);
    } else {
      assert ([x])[1..] == [];
    }
  }

  lemma {:induction false} QueryableCountUpdate(ts: seq<Tree>, k: nat, x: Tree)
    requires k < |ts|
    ensures QueryableCount(ts[k := x]) + NodeQueryableCount(ts[k]) == QueryableCount(ts) + NodeQueryableCount(x)
  {
    if k > 0 {
      assert ts[k := x][1..] == ts[1..][k - 1 := x];
      QueryableCountUpdate(ts[1..], k - 1, x);
    } else {
      assert ts[k := x][1..] == ts[1..];
    }
  }

  lemma {:induction false} ExtendsRefl(f: seq<Tree>)
    ensures Extends(f, f)
    decreases f
  {
    forall i | 0 <= i < |f| ensures Extends(f[i].children, f[i].children) {
      ExtendsRefl(f[i].children);
    }
  }

  lemma {:induction false} ExtendsTrans(f: seq<Tree>, g: seq<Tree>, h: seq<Tree>)
    requires Extends(f, g) && Extends(g, h)
    ensures Extends(f, h)
    decreases f
  {
    forall i | 0 <= i < |f| ensures Extends(f[i].children, h[i].children) {
      ExtendsTrans(f[i].children, g[i].children, h[i].children);
    }
  }

  /** Replacing one node's children by an extension of them extends the level. */
  lemma ExtendsUpdate(f: seq<Tree>, k: nat, c: seq<Tree>)
    requires k < |f| && Extends(f[k].children, c)
    ensures Extends(f, f[k := f[k].(children := c)])
  {
    ExtendsRefl(f);
  }

  lemma LocateExtends(level: seq<Tree>, conn: string, s: Segment, path: string)
    ensures Extends(level, Locate(level, conn, s, path).0)
  {
    var lvl := Locate(level, conn, s, path).0;
    ExtendsRefl(level);
    assert forall i :: 0 <= i < |level| ==> lvl[i] == level[i];
  }

  lemma LocateKeepsCount(level: seq<Tree>, conn: string, s: Segment, path: string)
    ensures QueryableCount(Locate(level, conn, s, path).0) == QueryableCount(level)
  {
    if MatchIndex(level, conn, s) < 0 {
      QueryableCountAppend(level, Container(conn, s, path));
    }
  }

  lemma LocateAllFrom(level: seq<Tree>, conn: string, s: Segment, path: string)
    requires AllFrom(level, conn)
    ensures AllFrom(Locate(level, conn, s, path).0, conn)
  {
  }

  /**
   * Placing one fqn: every node already there stays where it was, unchanged, and exactly
   * one more node is queryable, so every new container is not queryable.
   */
  lemma {:induction false} DescendGrows(level: seq<Tree>, conn: string, segs: seq<Segment>, raw: seq<string>, i: nat)
    requires i < |segs| == |raw|
    ensures Extends(level, Descend(level, conn, segs, raw, i))
    ensures QueryableCount(Descend(level, conn, segs, raw, i)) == QueryableCount(level) + 1
    decreases |segs| - i
  {
    if i == |segs| - 1 {
      var leaf := Leaf(conn, segs[i], NodePath(i, raw));
      QueryableCountAppend(level, leaf);
      ExtendsRefl(level);
      assert forall j :: 0 <= j < |level| ==> (level + [leaf])[j] == level[j];
    } else {
      var (lvl, k) := Locate(level, conn, segs[i], NodePath(i, raw));
      var below := Descend(lvl[k].children, conn, segs, raw, i + 1);
      DescendGrows(lvl[k].children, conn, segs, raw, i + 1);
      LocateExtends(level, conn, segs[i], NodePath(i, raw));
      ExtendsUpdate(lvl, k, below);
      ExtendsTrans(level, lvl, lvl[k := lvl[k].(children := below)]);
      LocateKeepsCount(level, conn, segs[i], NodePath(i, raw));
      QueryableCountUpdate(lvl, k, lvl[k].(children := below));
    }
  }

  lemma {:induction false} DescendAllFrom(level: seq<Tree>, conn: string, segs: seq<Segment>, raw: seq<string>, i: nat)
    requires i < |segs| == |raw| && AllFrom(level, conn)
    ensures AllFrom(Descend(level, conn, segs, raw, i), conn)
    decreases |segs| - i
  {
    if i < |segs| - 1 {
      var (lvl, k) := Locate(level, conn, segs[i], NodePath(i, raw));
      LocateAllFrom(level, conn, segs[i], NodePath(i, raw));
      DescendAllFrom(lvl[k].children, conn, segs, raw, i + 1);
    }
  }

  // ---------------------------------------------------------------- index paths

  /** `ks` leads from the level `c` through children to a level: `[]` is `c` itself. */
  predicate IsPath(c: seq<Tree>, ks: seq<nat>)
    decreases ks
  {
    ks == [] || (ks[0] < |c| && IsPath(c[ks[0]].children, ks[1..]))
  }

  /** The node at the non-empty index path `ks`. */
  function NodeAt(c: seq<Tree>, ks: seq<nat>): Tree
    requires ks != [] && IsPath(c, ks)
    decreases ks
  {
    if |ks| == 1 then c[ks[0]] else NodeAt(c[ks[0]].children, ks[1..])
  }

  /** The level at `ks`: the children of the node there, or `c` for `[]`. */
  function LevelAt(c: seq<Tree>, ks: seq<nat>): seq<Tree>
    requires IsPath(c, ks)
    decreases ks
  {
    if ks == [] then c else LevelAt(c[ks[0]].children, ks[1..])
  }

  /** The path from `level` down to the leaf that `Descend` appends. */
  function LeafPos(level: seq<Tree>, conn: string, segs: seq<Segment>, raw: seq<string>, i: nat): (p: seq<nat>)
    requires i < |segs| == |raw|
    ensures |p| == |segs| - i
    decreases |segs| - i
  {
    if i == |segs| - 1 then [|level|]
    else
      var (lvl, k) := Locate(level, conn, segs[i], NodePath(i, raw));
      [k] + LeafPos(lvl[k].children, conn, segs, raw, i + 1)
  }

  /** A path through root `k` is a path through `k`'s children, to the same node. */
  lemma ConsPath(d: seq<Tree>, k: nat, q: seq<nat>)
    requires k < |d|
    ensures IsPath(d, [k] + q) == IsPath(d[k].children, q)
    ensures q == [] ==> NodeAt(d, [k] + q) == d[k]
    ensures q != [] && IsPath(d[k].children, q) ==> NodeAt(d, [k] + q) == NodeAt(d[k].children, q)
  {
    assert ([k] + q)[0] == k && ([k] + q)[1..] == q;
  }

  /**
   * Where the leaf goes: `Descend` puts a queryable leaf for the last segment, with the
   * path of the whole fqn, at depth `|segs| - i`.
   */
  lemma {:induction false} DescendPlacesLeaf(level: seq<Tree>, conn: string, segs: seq<Segment>, raw: seq<string>, i: nat)
    requires i < |segs| == |raw|
    ensures var d := Descend(level, conn, segs, raw, i);
            var p := LeafPos(level, conn, segs, raw, i);
            |p| == |segs| - i && IsPath(d, p) &&
            NodeAt(d, p) == Leaf(conn, segs[|segs| - 1], NodePath(|segs| - 1, raw))
    decreases |segs| - i
  {
    if i < |segs| - 1 {
      var (lvl, k) := Locate(level, conn, segs[i], NodePath(i, raw));
      var below := lvl[k].children;
      var q := LeafPos(below, conn, segs, raw, i + 1);
      var d := Descend(level, conn, segs, raw, i);
      DescendPlacesLeaf(below, conn, segs, raw, i + 1);
      assert LeafPos(level, conn, segs, raw, i) == [k] + q;
      assert d[k].children == Descend(below, conn, segs, raw, i + 1);
      ConsPath(d, k, q);
    }
  }

  /**
   * ... below containers that match the segments before the last one: the node `j` levels
   * down the leaf's path is the one for segment `i + j - 1`.
   */
  lemma {:induction false} DescendMatchesSegments(level: seq<Tree>, conn: string, segs: seq<Segment>, raw: seq<string>, i: nat, j: nat)
    requires i < |segs| == |raw| && 1 <= j < |segs| - i
    ensures var d := Descend(level, conn, segs, raw, i);
            var p := LeafPos(level, conn, segs, raw, i);
            IsPath(d, p[..j]) && Matches(NodeAt(d, p[..j]), conn, segs[i + j - 1])
    decreases j
  {
    var (lvl, k) := Locate(level, conn, segs[i], NodePath(i, raw));
    var below := lvl[k].children;
    var q := LeafPos(below, conn, segs, raw, i + 1);
    var d := Descend(level, conn, segs, raw, i);
    var dk := Descend(below, conn, segs, raw, i + 1);
    var p := LeafPos(level, conn, segs, raw, i);
    assert p == [k] + q;
    assert d[k].children == dk && Matches(d[k], conn, segs[i]);
    if j == 1 {
      ConsPath(d, k, []);
      assert p[..1] == [k] + [];
    } else {
      DescendMatchesSegments(below, conn, segs, raw, i + 1, j - 1);
      var r := q[..j - 1];
      assert IsPath(dk, r) && Matches(NodeAt(dk, r), conn, segs[i + j - 1]);
      ConsPath(d, k, r);
      assert p[..j] == [k] + r;
    }
  }

  /** One fqn with several segments that parses: see `DescendGrows` and `DescendPlacesLeaf`. */
  lemma InsertFqnGrows(forest: seq<Tree>, conn: string, raw: seq<string>)
    requires |raw| >= 2 && InsertFqn(forest, conn, raw).Ok?
    ensures Extends(forest, InsertFqn(forest, conn, raw).value)
    ensures QueryableCount(InsertFqn(forest, conn, raw).value) == QueryableCount(forest) + 1
  {
    DescendGrows(forest, conn, ParseAll(raw).value, raw, 0);
  }

  /**
   * The leaf of a fqn is never merged with an equal one: the same multi-segment fqn
   * twice leaves two more queryable nodes, not one.
   */
  lemma RepeatedFqnAddsTwoLeaves(forest: seq<Tree>, conn: string, raw: seq<string>)
    requires |raw| >= 2 && InsertFqn(forest, conn, raw).Ok?
    ensures var once := InsertFqn(forest, conn, raw).value;
            InsertFqn(once, conn, raw).Ok? &&
            QueryableCount(InsertFqn(once, conn, raw).value) == QueryableCount(forest) + 2
  {
    var once := InsertFqn(forest, conn, raw).value;
    InsertFqnGrows(forest, conn, raw);
    InsertFqnGrows(once, conn, raw);
  }

  /**
   * Marking a root: the first root that matches, or a new one at the end with the given
   * path, is queryable afterwards; every other root is left as it was; and marking it
   * again changes nothing.
   */
  lemma MarkRootShape(forest: seq<Tree>, conn: string, s: Segment, path: string)
    ensures var g := MarkRoot(forest, conn, s, path);
            (|g| == |forest| || |g| == |forest| + 1) &&
            (exists k :: 0 <= k < |g| && Matches(g[k], conn, s) && g[k].queryable &&
               (forall j :: 0 <= j < k ==> !Matches(g[j], conn, s)) &&
               (k < |forest| ==> g[k] == forest[k].(queryable := true)) &&
               (k == |forest| ==> g[k] == Leaf(conn, s, path)) &&
               forall j :: 0 <= j < |forest| && j != k ==> g[j] == forest[j]) &&
            MarkRoot(g, conn, s, path) == g
  {
    var (lvl, k) := Locate(forest, conn, s, path);
    var g := lvl[k := lvl[k].(queryable := true)];
    assert forall j :: 0 <= j < |forest| ==> lvl[j] == forest[j];
    assert Matches(g[k], conn, s);
    assert forall j :: 0 <= j < k ==> g[j] == lvl[j];
    assert MatchIndex(g, conn, s) == k;
  }

  /** A one-segment fqn that parses marks its root, and repeating it changes nothing. */
  lemma SingleSegment(forest: seq<Tree>, conn: string, segment: string)
    requires InsertFqn(forest, conn, [segment]).Ok?
    ensures ParseSegment(segment).Ok?
    ensures var g := MarkRoot(forest, conn, ParseSegment(segment).value, segment);
            InsertFqn(forest, conn, [segment]) == Ok(g) && InsertFqn(g, conn, [segment]) == Ok(g)
  {
    var s := ParseAll([segment]).value[0];
    ParseAllSegment([segment], 0);
    assert [segment][..1] == [segment];
    assert NodePath(0, [segment]) == segment;
    MarkRootShape(forest, conn, s, segment);
  }

  lemma InsertFqnAllFrom(forest: seq<Tree>, conn: string, raw: seq<string>)
    requires AllFrom(forest, conn) && InsertFqn(forest, conn, raw).Ok?
    ensures AllFrom(InsertFqn(forest, conn, raw).value, conn)
  {
    var segs := ParseAll(raw).value;
    if |raw| == 1 {
      LocateAllFrom(forest, conn, segs[0], NodePath(0, raw));
      var (lvl, k) := Locate(forest, conn, segs[0], NodePath(0, raw));
      var m := lvl[k := lvl[k].(queryable := true)];
      assert InsertFqn(forest, conn, raw).value == m;
      forall j | 0 <= j < |m| ensures m[j].connectionName == conn && AllFrom(m[j].children, conn) {
        assert m[j].connectionName == lvl[j].connectionName && m[j].children == lvl[j].children;
      }
    } else {
      DescendAllFrom(forest, conn, segs, raw, 0);
    }
  }

  /** Every node of a built forest belongs to the connection it was built for. */
  lemma {:induction false} BuildAllFrom(conn: string, options: seq<Option<string>>)
    requires Build(conn, options).Ok?
    ensures AllFrom(Build(conn, options).value, conn)
  {
    if options != [] {
      var init := options[..|options| - 1];
      BuildAllFrom(conn, init);
      var forest := Build(conn, init).value;
      match options[|options| - 1]
      case None =>
      case Some(fqn) => InsertFqnAllFrom(forest, conn, JavaSplit(fqn, FORWARD_SLASH));
    }
  }

  /** One fqn that fails to parse aborts the build, whatever tables come after it. */
  lemma {:induction false} BuildAborts(conn: string, options: seq<Option<string>>, more: seq<Option<string>>)
    requires Build(conn, options).Err?
    ensures Build(conn, options + more) == Build(conn, options)
    decreases |more|
  {
    if more != [] {
      var init := more[..|more| - 1];
      assert (options + more)[..|options + more| - 1] == options + init;
      BuildAborts(conn, options, init);
      assert Build(conn, options + more) == Build(conn, options + init);
    } else {
      assert options + more == options;
    }
  }

  /** Tables are folded in order: adding a table to the list is one more `InsertFqn`. */
  lemma BuildSnoc(conn: string, options: seq<Option<string>>, fqn: string)
    requires Build(conn, options).Ok?
    ensures Build(conn, options + [Some(fqn)]) ==
            InsertFqn(Build(conn, options).value, conn, JavaSplit(fqn, FORWARD_SLASH))
  {
    assert (options + [Some(fqn)])[..|options|] == options;
  }

  /** The build of the first `t + 1` options is the build of the first `t` and one more step. */
  lemma BuildNext(conn: string, options: seq<Option<string>>, t: nat, c: seq<Tree>)
    requires t < |options| && Build(conn, options[..t]) == Ok(c)
    ensures options[t].None? ==> Build(conn, options[..t + 1]) == Ok(c)
    ensures options[t].Some? ==>
            Build(conn, options[..t + 1]) == InsertFqn(c, conn, JavaSplit(options[t].value, FORWARD_SLASH))
  {
    var p := options[..t + 1];
    assert p != [] && p[..|p| - 1] == options[..t] && p[|p| - 1] == options[t];
  }

  /** A prefix of the options whose build fails decides the build of all of them. */
  lemma BuildPrefixErr(conn: string, options: seq<Option<string>>, n: nat)
    requires n <= |options| && Build(conn, options[..n]).Err?
    ensures Build(conn, options) == Build(conn, options[..n])
  {
    BuildAborts(conn, options[..n], options[n..]);
    assert options[..n] + options[n..] == options;
  }
}
