/** The layout of the flamegraph (`dfs` in `writeSVG` of reporter/local.go), before scaling. */
module FlameLayout {
  import opened Words
  import opened Bytes
  import opened Flamegraph

  /** The name the tree's own root has; `dfs` draws no node of that name. */
  const ROOT: Str := [114, 111, 111, 116]

  datatype Rect = Rect(path: Path, x: int, w: nat, depth: nat)

  function Last(p: Path): Str {
    if p == [] then ROOT else p[|p| - 1]
  }

  ghost predicate Apart(r: Rect, s: Rect) {
    r.x + r.w <= s.x || s.x + s.w <= r.x
  }

  ghost predicate Inside(r: Rect, s: Rect) {
    s.x <= r.x && r.x + r.w <= s.x + s.w
  }

  /** All rectangles lie between two positions. */
  ghost predicate Banded(rects: seq<Rect>, lo: int, hi: int) {
    forall r :: r in rects ==> lo <= r.x && r.x + r.w <= hi
  }

  /** Rectangles of one row do not overlap. */
  ghost predicate RowsApart(rects: seq<Rect>) {
    forall r, s :: r in rects && s in rects && r.depth == s.depth && r.path != s.path ==> Apart(r, s)
  }

  /** No path is drawn twice. */
  ghost predicate Once(rects: seq<Rect>) {
    forall i, j :: 0 <= i < j < |rects| ==> rects[i].path != rects[j].path
  }

  predicate Siblings(r: Rect, s: Rect) {
    |r.path| == |s.path| > 0 && r.path[..|r.path| - 1] == s.path[..|r.path| - 1]
  }

  /** Of two siblings the larger one comes first. */
  ghost predicate LargerFirst(rects: seq<Rect>) {
    forall r, s :: r in rects && s in rects && Siblings(r, s) && r.w > s.w ==> r.x + r.w <= s.x
  }

  /** A rectangle is as wide as the count of the node its path leads to. */
  ghost predicate Labelled(r: Rect, n: Node, depth: nat, path: Path) {
    && path <= r.path && r.depth == depth + |r.path| - |path| && Last(r.path) != ROOT
    && Reached(n, r.path[|path|..])
    && r.w == if r.path == path then n.count else CountAt(n.children, r.path[|path|..])
  }

  function Parents(p: Path): Path {
    if p == [] then [] else p[..|p| - 1]
  }

  ghost predicate Parent(s: Rect, r: Rect) {
    r.path != [] && s.path == Parents(r.path) && s.depth + 1 == r.depth && Inside(r, s)
  }

  /** Every rectangle lies inside that of its parent, if the parent is drawn. */
  ghost predicate Nested(rects: seq<Rect>, path: Path) {
    forall r {:trigger Housed(rects, r)} :: r in rects && r.path != path && Last(Parents(r.path)) != ROOT ==>
      Housed(rects, r)
  }

  ghost predicate Housed(rects: seq<Rect>, r: Rect) {
    exists s :: s in rects && Parent(s, r)
  }

  /** A path leads from a node to one of its descendants. */
  ghost predicate Reached(n: Node, q: Path)
    decreases |q|
  {
    q == [] || exists c :: c in n.children && c.name == q[0] && Reached(c, q[1..])
  }

  /** Every node is drawn, but for those named as the root. */
  ghost predicate Complete(rects: seq<Rect>, n: Node, path: Path) {
    forall q :: Reached(n, q) && Last(path + q) != ROOT ==> Drawn(rects, path + q)
  }

  ghost predicate Drawn(rects: seq<Rect>, path: Path) {
    exists r :: r in rects && r.path == path
  }

  /** A rectangle starts where its parent does, or where a sibling ends. */
  ghost predicate Flush(rects: seq<Rect>, r: Rect, x: int, path: Path) {
    || (Parents(r.path) == path && r.x == x)
    || exists s :: s in rects && ((s.path == Parents(r.path) && s.x == r.x) || (Siblings(s, r) && s.x + s.w == r.x))
  }

  /** The parent is the whole picture or drawn, and so are all its children. */
  ghost predicate Shown(r: Rect, n: Node, path: Path) {
    && path < r.path && !Reached(n, (Parents(r.path) + [ROOT])[|path|..])
    && (Parents(r.path) == path || Last(Parents(r.path)) != ROOT)
  }

  /** Siblings leave no gaps, the first one starting where the parent does. */
  ghost predicate Packed(rects: seq<Rect>, n: Node, x: int, path: Path) {
    forall r {:trigger Shown(r, n, path)} :: r in rects && Shown(r, n, path) ==> Flush(rects, r, x, path)
  }

  ghost predicate Layout(rects: seq<Rect>, n: Node, x: int, depth: nat, path: Path) {
    && Banded(rects, x, x + Max(n.count, Sum(n.children)))
    && RowsApart(rects) && Once(rects) && LargerFirst(rects)
    && (forall r :: r in rects ==> Labelled(r, n, depth, path))
    && Nested(rects, path)
    && Complete(rects, n, path)
    && Packed(rects, n, x, path) && Begun(rects, n, x, depth, path)
  }

  /** The node's own rectangle starts the picture. */
  ghost predicate Begun(rects: seq<Rect>, n: Node, x: int, depth: nat, path: Path) {
    n.name != ROOT ==> Rect(path, x, n.count, depth) in rects
  }

  /** A node that can be laid out under a path. */
  ghost predicate Fits(n: Node, path: Path) {
    n.name == Last(path) && Wellformed(n.children) && (n.name == ROOT || Sum(n.children) <= n.count)
  }

  lemma {:induction false} ChildFits(ns: seq<Node>, c: Node, path: Path)
    requires Wellformed(ns) && c in ns
    ensures Fits(c, path + [c.name]) && Sum(c.children) <= c.count
  {
    if c != ns[0] {
      ChildFits(ns[1..], c, path);
    }
  }

  lemma {:induction false} NamedIn(ns: seq<Node>, c: Node)
    requires c in ns
    ensures Names(ns, c.name)
  {
    if c != ns[0] {
      NamedIn(ns[1..], c);
    }
  }

  /** Through the parent's children, a child is reached by its name. */
  lemma {:induction false} ChildCount(ns: seq<Node>, c: Node, q: Path)
    requires Wellformed(ns) && c in ns
    ensures CountAt(ns, [c.name] + q) == if q == [] then c.count else CountAt(c.children, q)
  {
    assert ([c.name] + q)[1..] == q;
    if c in ns[1..] {
      NamedIn(ns[1..], c);
      ChildCount(ns[1..], c, q);
    }
  }

  lemma {:induction false} SumConcat(a: seq<Node>, b: seq<Node>)
    ensures Sum(a + b) == Sum(a) + Sum(b)
  {
    if a == [] {
      assert a + b == b;
    } else {
      assert (a + b)[1..] == a[1..] + b;
      SumConcat(a[1..], b);
    }
  }

  /** Taking one sibling out leaves the others. */
  lemma Remove(ns: seq<Node>, i: nat)
    requires i < |ns|
    ensures var rest := ns[..i] + ns[i + 1..];
            Sum(rest) == Sum(ns) - ns[i].count && forall c :: c in rest ==> c in ns
  {
    assert ns == ns[..i] + ([ns[i]] + ns[i + 1..]);
    SumConcat(ns[..i], [ns[i]] + ns[i + 1..]);
    SumConcat(ns[..i], ns[i + 1..]);
  }

  /** Some sibling counts the most. */
  lemma {:induction false} MaxExists(ns: seq<Node>) returns (i: nat)
    requires ns != []
    ensures i < |ns| && forall j :: 0 <= j < |ns| ==> ns[j].count <= ns[i].count
  {
    if |ns| == 1 {
      return 0;
    }
    var k := MaxExists(ns[1..]);
    i := if ns[0].count >= ns[1..][k].count then 0 else k + 1;
    forall j | 0 <= j < |ns| ensures ns[j].count <= ns[i].count {
      if j > 0 {
        assert ns[j] == ns[1..][j - 1];
      }
    }
  }

  /** What is drawn below a path belongs to children taken out before, and those were no smaller. */
  ghost predicate Placed(rects: seq<Rect>, path: Path, rest: seq<Node>) {
    forall r :: r in rects && path <= r.path && r.path != path ==>
      !Names(rest, r.path[|path|]) && (|r.path| == |path| + 1 ==> forall c :: c in rest ==> c.count <= r.w)
  }

  ghost predicate Ordered(rects: seq<Rect>, path: Path, rest: seq<Node>) {
    Once(rects) && LargerFirst(rects) && Placed(rects, path, rest) && Unique(rest)
  }

  /** What is drawn of a node after some of its children. */
  ghost predicate SoFar(rects: seq<Rect>, n: Node, x: int, depth: nat, path: Path, cx: nat, rest: seq<Node>) {
    && Banded(rects, x, x + Max(n.count, cx))
    && (forall r :: r in rects && r.path != path ==> r.depth > depth && r.x + r.w <= x + cx)
    && RowsApart(rects)
    && (forall r :: r in rects ==> Labelled(r, n, depth, path))
    && Nested(rects, path)
    && Begun(rects, n, x, depth, path)
    && (forall c :: c in n.children ==> c in rest || Complete(rects, c, path + [c.name]))
  }

  /** A child's rectangle, seen from its parent. */
  lemma ChildLabelled(r: Rect, n: Node, c: Node, depth: nat, path: Path)
    requires Wellformed(n.children) && c in n.children && Labelled(r, c, depth + 1, path + [c.name])
    ensures Labelled(r, n, depth, path) && r.path != path && r.depth > depth
  {
    var q := r.path[|path| + 1..];
    assert r.path[|path|..] == [c.name] + q;
    assert r.path[..|path|] == path;
    ChildCount(n.children, c, q);
    assert ([c.name] + q)[1..] == q;
    assert r.path[|path + [c.name]|..] == q;
    if r.path == path + [c.name] {
      assert q == [];
    }
  }

  lemma ChildRowsApart(rects: seq<Rect>, sub: seq<Rect>, n: Node, c: Node, x: int, depth: nat, path: Path, cx: nat, rest: seq<Node>)
    requires SoFar(rects, n, x, depth, path, cx, rest) && Wellformed(n.children) && c in n.children
    requires Layout(sub, c, x + cx, depth + 1, path + [c.name])
    ensures RowsApart(rects + sub)
  {
    forall r, s | r in rects && s in sub && r.depth == s.depth ensures Apart(r, s) {
      ChildLabelled(s, n, c, depth, path);
      assert Labelled(r, n, depth, path);
    }
  }

  lemma ChildNested(rects: seq<Rect>, sub: seq<Rect>, n: Node, c: Node, x: int, depth: nat, path: Path, cx: nat, rest: seq<Node>)
    requires SoFar(rects, n, x, depth, path, cx, rest) && Fits(n, path) && c in n.children && Sum(c.children) <= c.count
    requires Layout(sub, c, x + cx, depth + 1, path + [c.name]) && cx + c.count <= Sum(n.children)
    ensures Nested(rects + sub, path)
  {
    forall r | r in rects + sub && r.path != path && Last(Parents(r.path)) != ROOT
      ensures Housed(rects + sub, r)
    {
      if r in rects {
        assert Housed(rects, r);
        var s :| s in rects && Parent(s, r);
        assert s in rects + sub;
      } else if r.path != path + [c.name] {
        assert Housed(sub, r);
        var s :| s in sub && Parent(s, r);
        assert s in rects + sub;
      } else {
        assert Parents(r.path) == path;
        var s := Rect(path, x, n.count, depth);
        assert s in rects + sub && Labelled(r, c, depth + 1, path + [c.name]);
      }
    }
  }

  lemma DrawnMore(rects: seq<Rect>, sub: seq<Rect>, n: Node, path: Path)
    ensures Complete(rects, n, path) || Complete(sub, n, path) ==> Complete(rects + sub, n, path)
  {
    forall q | Drawn(rects, path + q) || Drawn(sub, path + q) ensures Drawn(rects + sub, path + q) {
      var r :| (r in rects || r in sub) && r.path == path + q;
      assert r in rects + sub;
    }
  }

  /** Nothing drawn before lies below the child that comes next. */
  lemma ChildElsewhere(r: Rect, s: Rect, c: Node, path: Path, rest: seq<Node>)
    requires path <= r.path && (r.path != path ==> !Names(rest, r.path[|path|])) && c in rest
    requires path + [c.name] <= s.path
    ensures r.path != s.path
    ensures Siblings(r, s) ==> |r.path| == |path| + 1
  {
    NamedIn(rest, c);
    assert s.path[|path|] == c.name;
    if Siblings(r, s) {
      SiblingsShare(r, s);
    }
  }

  lemma SiblingsShare(r: Rect, s: Rect)
    requires Siblings(r, s)
    ensures forall k :: 0 <= k < |r.path| - 1 ==> r.path[k] == s.path[k]
  {
    forall k | 0 <= k < |r.path| - 1 ensures r.path[k] == s.path[k] {
      assert r.path[k] == r.path[..|r.path| - 1][k] && s.path[k] == s.path[..|r.path| - 1][k];
    }
  }

  lemma ChildOnce(rects: seq<Rect>, sub: seq<Rect>, n: Node, c: Node, x: int, depth: nat, path: Path, cx: nat, rest: seq<Node>)
    requires SoFar(rects, n, x, depth, path, cx, rest) && Ordered(rects, path, rest) && c in rest
    requires Layout(sub, c, x + cx, depth + 1, path + [c.name])
    ensures Once(rects + sub)
  {
    var all := rects + sub;
    forall i, j | 0 <= i < j < |all| ensures all[i].path != all[j].path {
      if i < |rects| <= j {
        var r, s := rects[i], sub[j - |rects|];
        assert Labelled(r, n, depth, path) && Labelled(s, c, depth + 1, path + [c.name]);
        ChildElsewhere(r, s, c, path, rest);
      }
    }
  }

  lemma ChildLargerFirst(rects: seq<Rect>, sub: seq<Rect>, n: Node, c: Node, x: int, depth: nat, path: Path, cx: nat, rest: seq<Node>)
    requires SoFar(rects, n, x, depth, path, cx, rest) && Ordered(rects, path, rest) && c in rest
    requires Layout(sub, c, x + cx, depth + 1, path + [c.name])
    ensures LargerFirst(rects + sub)
  {
    forall r, s | r in rects && s in sub && Siblings(r, s) ensures r.x + r.w <= s.x && s.w <= r.w {
      assert Labelled(r, n, depth, path) && Labelled(s, c, depth + 1, path + [c.name]);
      ChildElsewhere(r, s, c, path, rest);
      assert s.path == path + [c.name];
    }
    forall r, s | r in rects + sub && s in rects + sub && Siblings(r, s) && r.w > s.w ensures r.x + r.w <= s.x {
      if r in sub && s in rects {
        assert Siblings(s, r);
      }
    }
  }

  lemma ChildTaken(rects: seq<Rect>, sub: seq<Rect>, n: Node, x: int, depth: nat, path: Path, cx: nat, rest: seq<Node>, i: nat)
    requires SoFar(rects, n, x, depth, path, cx, rest) && Ordered(rects, path, rest)
    requires i < |rest| && forall j :: 0 <= j < |rest| ==> rest[j].count <= rest[i].count
    requires Layout(sub, rest[i], x + cx, depth + 1, path + [rest[i].name])
    ensures Placed(rects + sub, path, rest[..i] + rest[i + 1..])
  {
    var c, rest' := rest[i], rest[..i] + rest[i + 1..];
    forall r | r in rects + sub && path <= r.path && r.path != path
      ensures !Names(rest', r.path[|path|]) && (|r.path| == |path| + 1 ==> forall d :: d in rest' ==> d.count <= r.w) {
      NamesLeft(rest, i, r.path[|path|]);
      if r in sub {
        assert Labelled(r, c, depth + 1, path + [c.name]);
        assert r.path[|path|] == c.name;
      }
    }
  }

  /** No two share a name. */
  predicate Unique(ns: seq<Node>) {
    ns == [] || (!Names(ns[1..], ns[0].name) && Unique(ns[1..]))
  }

  lemma {:induction false} WellformedUnique(ns: seq<Node>)
    requires Wellformed(ns)
    ensures Unique(ns)
  {
    if ns != [] {
      WellformedUnique(ns[1..]);
    }
  }

  /** The names left when one sibling is taken out. */
  lemma {:induction false} NamesLeft(ns: seq<Node>, i: nat, name: Str)
    requires i < |ns| && Unique(ns)
    ensures Names(ns[..i] + ns[i + 1..], name) <==> Names(ns, name) && name != ns[i].name
  {
    var rest := ns[..i] + ns[i + 1..];
    if i == 0 {
      assert rest == ns[1..];
    } else {
      assert rest[0] == ns[0] && rest[1..] == ns[1..][..i - 1] + ns[1..][i..];
      NamesLeft(ns[1..], i - 1, name);
      NamedIn(ns[1..], ns[i]);
    }
  }

  lemma {:induction false} UniqueLeft(ns: seq<Node>, i: nat)
    requires i < |ns| && Unique(ns)
    ensures Unique(ns[..i] + ns[i + 1..])
  {
    var rest := ns[..i] + ns[i + 1..];
    if i == 0 {
      assert rest == ns[1..];
    } else {
      assert rest[0] == ns[0] && rest[1..] == ns[1..][..i - 1] + ns[1..][i..];
      UniqueLeft(ns[1..], i - 1);
      NamesLeft(ns[1..], i - 1, ns[0].name);
    }
  }

  /** The largest child left is taken out. */
  lemma ChildOrdered(rects: seq<Rect>, sub: seq<Rect>, n: Node, x: int, depth: nat, path: Path, cx: nat, rest: seq<Node>, i: nat)
    requires SoFar(rects, n, x, depth, path, cx, rest) && Ordered(rects, path, rest)
    requires i < |rest| && forall j :: 0 <= j < |rest| ==> rest[j].count <= rest[i].count
    requires Layout(sub, rest[i], x + cx, depth + 1, path + [rest[i].name])
    ensures Ordered(rects + sub, path, rest[..i] + rest[i + 1..])
  {
    ChildOnce(rects, sub, n, rest[i], x, depth, path, cx, rest);
    ChildLargerFirst(rects, sub, n, rest[i], x, depth, path, cx, rest);
    ChildTaken(rects, sub, n, x, depth, path, cx, rest, i);
    UniqueLeft(rest, i);
  }

  /** A node and some of its children are laid out, the others are still to come. */
  ghost predicate Progress(rects: seq<Rect>, n: Node, x: int, depth: nat, path: Path, cx: nat, rest: seq<Node>) {
    && SoFar(rects, n, x, depth, path, cx, rest) && Ordered(rects, path, rest)
    && Packed(rects, n, x, path) && Edge(rects, n, x, path, cx)
    && cx + Sum(rest) == Sum(n.children) && forall c :: c in rest ==> c in n.children
  }

  /** A node before its children. */
  lemma Started(n: Node, x: int, depth: nat, path: Path)
    requires Fits(n, path)
    ensures var rects := if n.name != ROOT then [Rect(path, x, n.count, depth)] else [];
            Progress(rects, n, x, depth, path, 0, n.children)
  {
    WellformedUnique(n.children);
    assert path[|path|..] == [];
  }

  /** One more child, placed behind the others. */
  lemma ChildPlaced(rects: seq<Rect>, sub: seq<Rect>, n: Node, x: int, depth: nat, path: Path, cx: nat, rest: seq<Node>, i: nat)
    requires SoFar(rects, n, x, depth, path, cx, rest) && Fits(n, path)
    requires i < |rest| && rest[i] in n.children && cx + rest[i].count <= Sum(n.children)
    requires Layout(sub, rest[i], x + cx, depth + 1, path + [rest[i].name])
    ensures SoFar(rects + sub, n, x, depth, path, cx + rest[i].count, rest[..i] + rest[i + 1..])
  {
    var c := rest[i];
    ChildFits(n.children, c, path);
    ChildRowsApart(rects, sub, n, c, x, depth, path, cx, rest);
    ChildNested(rects, sub, n, c, x, depth, path, cx, rest);
    forall r | r in sub ensures Labelled(r, n, depth, path) && r.path != path && r.depth > depth {
      ChildLabelled(r, n, c, depth, path);
    }
    forall d | d in n.children ensures d in rest[..i] + rest[i + 1..] || Complete(rects + sub, d, path + [d.name]) {
      if d == c || d !in rest {
        DrawnMore(rects, sub, d, path + [d.name]);
      }
    }
  }

  lemma Rejoin(path: Path, name: Str, q: Path)
    requires q != [] && q[0] == name
    ensures path + [name] + q[1..] == path + q
  {
  }

  lemma DrawnThrough(rects: seq<Rect>, c: Node, path: Path, q: Path)
    requires Complete(rects, c, path) && Reached(c, q) && Last(path + q) != ROOT
    ensures Drawn(rects, path + q)
  {
  }

  lemma AllDrawn(rects: seq<Rect>, n: Node, path: Path, q: Path)
    requires Last(path) != ROOT ==> Drawn(rects, path)
    requires forall c :: c in n.children ==> Complete(rects, c, path + [c.name])
    requires Reached(n, q) && Last(path + q) != ROOT
    ensures Drawn(rects, path + q)
  {
    if q == [] {
      assert path + q == path;
    } else {
      var c :| c in n.children && c.name == q[0] && Reached(c, q[1..]);
      Rejoin(path, c.name, q);
      DrawnThrough(rects, c, path + [c.name], q[1..]);
    }
  }

  /** The next child starts where its parent does, or where the last one ends, if that is drawn. */
  ghost predicate Edge(rects: seq<Rect>, n: Node, x: int, path: Path, cx: nat) {
    || cx == 0 || Reached(n, [ROOT])
    || exists s :: s in rects && |s.path| == |path| + 1 && path < s.path && s.x + s.w == x + cx
  }

  lemma ReachedThrough(n: Node, c: Node, q: Path)
    requires c in n.children && Reached(c, q)
    ensures Reached(n, [c.name] + q)
  {
    assert ([c.name] + q)[1..] == q;
  }

  lemma FlushMore(rects: seq<Rect>, sub: seq<Rect>, r: Rect, x: int, path: Path)
    requires Flush(rects, r, x, path) || Flush(sub, r, x, path)
    ensures Flush(rects + sub, r, x, path)
  {
    if Parents(r.path) != path || r.x != x {
      var s :| (s in rects || s in sub)
        && ((s.path == Parents(r.path) && s.x == r.x) || (Siblings(s, r) && s.x + s.w == r.x));
      assert s in rects + sub;
    }
  }

  /** What is flush below a child is flush below its parent. */
  lemma FlushBelow(sub: seq<Rect>, r: Rect, n: Node, c: Node, x: int, cx: nat, depth: nat, path: Path)
    requires c in n.children && Layout(sub, c, x + cx, depth + 1, path + [c.name])
    requires r in sub && Shown(r, n, path) && r.path != path + [c.name]
    ensures Flush(sub, r, x, path)
  {
    var below := path + [c.name];
    assert Labelled(r, c, depth + 1, below);
    var q := (Parents(r.path) + [ROOT])[|below|..];
    assert (Parents(r.path) + [ROOT])[|path|..] == [c.name] + q;
    if Reached(c, q) {
      ReachedThrough(n, c, q);
    }
    assert Shown(r, c, below);
    if Parents(r.path) == below && r.x == x + cx {
      assert Rect(below, x + cx, c.count, depth + 1) in sub;
    }
  }

  /** A child behind the others is flush with the last of them. */
  lemma FlushChild(rects: seq<Rect>, r: Rect, n: Node, x: int, cx: nat, path: Path)
    requires Edge(rects, n, x, path, cx) && Shown(r, n, path) && |r.path| == |path| + 1 && r.x == x + cx
    ensures Flush(rects, r, x, path)
  {
    assert Parents(r.path) == path && (path + [ROOT])[|path|..] == [ROOT];
    if cx != 0 {
      var s :| s in rects && |s.path| == |path| + 1 && path < s.path && s.x + s.w == x + cx;
      assert Siblings(s, r);
    }
  }

  lemma MorePacked(rects: seq<Rect>, sub: seq<Rect>, n: Node, c: Node, x: int, depth: nat, path: Path, cx: nat)
    requires Packed(rects, n, x, path) && Edge(rects, n, x, path, cx)
    requires c in n.children && Layout(sub, c, x + cx, depth + 1, path + [c.name])
    ensures Packed(rects + sub, n, x, path) && Edge(rects + sub, n, x, path, cx + c.count)
  {
    var top := Rect(path + [c.name], x + cx, c.count, depth + 1);
    forall r | r in rects + sub && Shown(r, n, path) ensures Flush(rects + sub, r, x, path) {
      if r in sub && r.path != top.path {
        FlushBelow(sub, r, n, c, x, cx, depth, path);
      } else if r in sub {
        assert Labelled(r, c, depth + 1, top.path) && top in sub;
        assert r == top;
        FlushChild(rects, r, n, x, cx, path);
      }
      FlushMore(rects, sub, r, x, path);
    }
    if c.name == ROOT {
      ReachedThrough(n, c, []);
      assert [ROOT] + [] == [ROOT];
    } else {
      assert top in rects + sub;
    }
  }

  /** After its last child, a node is laid out. */
  lemma AllPlaced(rects: seq<Rect>, n: Node, x: int, depth: nat, path: Path, cx: nat)
    requires Progress(rects, n, x, depth, path, cx, []) && Fits(n, path)
    ensures Layout(rects, n, x, depth, path)
  {
    if n.name != ROOT {
      assert Rect(path, x, n.count, depth).path == path;
    }
    forall q | Reached(n, q) && Last(path + q) != ROOT ensures Drawn(rects, path + q) {
      AllDrawn(rects, n, path, q);
    }
  }

  /** The largest of the children left. */
  predicate Largest(rest: seq<Node>, i: int) {
    0 <= i < |rest| && forall j :: 0 <= j < |rest| ==> rest[j].count <= rest[i].count
  }

  lemma MoreProgress(rects: seq<Rect>, sub: seq<Rect>, n: Node, x: int, depth: nat, path: Path, cx: nat, rest: seq<Node>, i: nat)
    requires Progress(rects, n, x, depth, path, cx, rest) && Fits(n, path) && Largest(rest, i)
    requires Layout(sub, rest[i], x + cx, depth + 1, path + [rest[i].name])
    ensures Progress(rects + sub, n, x, depth, path, cx + rest[i].count, rest[..i] + rest[i + 1..])
  {
    Remove(rest, i);
    MorePacked(rects, sub, n, rest[i], x, depth, path, cx);
    ChildPlaced(rects, sub, n, x, depth, path, cx, rest, i);
    ChildOrdered(rects, sub, n, x, depth, path, cx, rest, i);
  }

  /** The traversal: a node, then its children side by side, larger ones first. */
  method Dfs(n: Node, x: int, depth: nat, path: Path) returns (rects: seq<Rect>)
    requires Fits(n, path)
    ensures Layout(rects, n, x, depth, path)
    decreases n, 2
  {
    rects := if n.name != ROOT then [Rect(path, x, n.count, depth)] else [];
    var cx: nat := 0;
    var rest := n.children;
    Started(n, x, depth, path);
    while rest != []
      invariant Progress(rects, n, x, depth, path, cx, rest)
      decreases |rest|
    {
      rects, cx, rest := DfsNext(rects, n, x, depth, path, cx, rest);
    }
    AllPlaced(rects, n, x, depth, path, cx);
  }

  /** The largest of the children left comes behind those before. */
  method DfsNext(rects: seq<Rect>, n: Node, x: int, depth: nat, path: Path, cx: nat, rest: seq<Node>)
      returns (rects': seq<Rect>, cx': nat, rest': seq<Node>)
    requires Progress(rects, n, x, depth, path, cx, rest) && Fits(n, path) && rest != []
    ensures Progress(rects', n, x, depth, path, cx', rest') && |rest'| < |rest|
    decreases n, 1
  {
    var i, sub := DfsLargest(n, x + cx, depth, path, rest);
    MoreProgress(rects, sub, n, x, depth, path, cx, rest, i);
    rects', cx', rest' := rects + sub, cx + rest[i].count, rest[..i] + rest[i + 1..];
  }

  /** Of the children left, the largest one. */
  method DfsLargest(n: Node, x: int, depth: nat, path: Path, rest: seq<Node>) returns (i: nat, rects: seq<Rect>)
    requires Fits(n, path) && rest != [] && forall c :: c in rest ==> c in n.children
    ensures Largest(rest, i) && Layout(rects, rest[i], x, depth + 1, path + [rest[i].name])
    decreases n, 0
  {
    ghost var k := MaxExists(rest);
    assert Largest(rest, k);
    var j :| 0 <= j < |rest| && Largest(rest, j);
    i := j;
    ChildFits(n.children, rest[i], path);
    rects := Dfs(rest[i], x, depth + 1, path + [rest[i].name]);
  }

  /**
   The whole picture: rows without overlap, every rectangle as wide as the weight of the stacks that
   extend its path and inside its parent's, siblings side by side without gaps from where their parent
   starts, larger ones first; exactly the paths of the tree that do
   not end in a frame named "root" are drawn, each of them once.
   */
  method LayoutTree(reporter: LocalReporter) returns (rects: seq<Rect>, ghost tree: seq<Node>)
    requires reporter.Valid()
    ensures RowsApart(rects) && Nested(rects, []) && Once(rects) && LargerFirst(rects)
    ensures Packed(rects, Node(ROOT, 0, tree), 0, [])
    ensures Banded(rects, 0, WeightOf(reporter.events, []))
    ensures forall r :: r in rects ==> r.path != [] && r.depth == |r.path| && r.w == WeightOf(reporter.events, r.path)
    ensures forall p: Path :: Drawn(rects, p) <==> Reached(Node(ROOT, 0, tree), p) && Last(p) != ROOT
    ensures forall p: Path :: p != [] ==> CountAt(tree, p) == WeightOf(reporter.events, p)
  {
    var root := reporter.BuildTree();
    tree := root;
    rects := Dfs(Node(ROOT, 0, root), 0, 0, []);
    forall r | r in rects ensures r.path != [] && r.depth == |r.path| && r.w == WeightOf(reporter.events, r.path) {
      assert Labelled(r, Node(ROOT, 0, root), 0, []);
      assert r.path[0..] == r.path;
    }
    forall p: Path ensures Drawn(rects, p) <==> Reached(Node(ROOT, 0, root), p) && Last(p) != ROOT {
      assert [] + p == p && p[0..] == p;
      if Drawn(rects, p) {
        var r :| r in rects && r.path == p;
        assert Labelled(r, Node(ROOT, 0, root), 0, []);
      }
    }
  }
}
