/**
 * Parent links, depth and ancestor search (`NodeToken`, `Symbol`, `Root`,
 * `INodeToken.getRoot`). Java stores a parent reference in each token; here
 * a token is addressed by its path of child indices from the top of a tree,
 * and the reference is recomputed from what the engine sets:
 * - a composite's parent is the composite whose parse built it, except that
 *   `Union.parse` hands its own parent to its alternatives, so a token built
 *   inside a `Union` reports the nearest enclosing non-`Union` token;
 * - a symbol's parent is set when the token holding it is fused into an
 *   enclosing sequence (`reroot`). The top token is never fused, so a symbol
 *   lying directly in it has a parent only if the top token's own parse
 *   stepped over it with `Char`, which sets the parent it is given. A tree
 *   does not record which of its top-level symbols that happened to, and this
 *   model takes none of them to have a parent: exact for the symbols the
 *   parse never reached, such as the closing `EOF`.
 */
module Tree {
  import opened Wrappers
  import opened Kinds
  import opened Nodes

  type Path = seq<nat>

  /** `p` addresses a token of `t`. */
  predicate ValidPath(t: Node, p: Path)
    decreases |p|
  {
    p == [] || (t.Comp? && p[0] < |t.children| && ValidPath(t.children[p[0]], p[1..]))
  }

  /** The token at path `p`. */
  function At(t: Node, p: Path): Node
    requires ValidPath(t, p)
    decreases |p|
  {
    if p == [] then t else At(t.children[p[0]], p[1..])
  }

  lemma {:induction false} PrefixValid(t: Node, p: Path, k: nat)
    requires ValidPath(t, p) && k <= |p|
    ensures ValidPath(t, p[..k])
    ensures k < |p| ==> At(t, p[..k]).Comp?
    decreases |p|
  {
    if k > 0 {
      assert p[..k][1..] == p[1..][..k - 1];
      PrefixValid(t.children[p[0]], p[1..], k - 1);
    }
  }

  lemma {:induction false} AtPrefixChild(t: Node, p: Path)
    requires ValidPath(t, p) && p != []
    ensures ValidPath(t, p[..|p| - 1])
    ensures At(t, p[..|p| - 1]).Comp?
    ensures p[|p| - 1] < |At(t, p[..|p| - 1]).children|
    ensures At(t, p) == At(t, p[..|p| - 1]).children[p[|p| - 1]]
    decreases |p|
  {
    PrefixValid(t, p, |p| - 1);
    if |p| > 1 {
      assert p[..|p| - 1][1..] == p[1..][..|p[1..]| - 1];
      AtPrefixChild(t.children[p[0]], p[1..]);
    }
  }

  /** A path strictly above `p`. */
  predicate Above(q: Path, p: Path) {
    |q| < |p| && q == p[..|q|]
  }

  /** The token that a token built directly inside the composite at `q` reports as parent:
      `q` itself, unless `q` is a `Union`, which passes its own parent on. */
  function Holder(t: Node, q: Path): (r: Option<Path>)
    requires ValidPath(t, q)
    ensures r.Some? ==> ValidPath(t, r.value) && |r.value| <= |q| && r.value == q[..|r.value|]
    ensures r.Some? ==> !InstanceOf(At(t, r.value), UnionC)
    decreases |q|
  {
    if !InstanceOf(At(t, q), UnionC) then Some(q)
    else if q == [] then None
    else
      PrefixValid(t, q, |q| - 1);
      var r := Holder(t, q[..|q| - 1]);
      if r.Some? then assert q[..|q| - 1][..|r.value|] == q[..|r.value|]; r else r
  }

  /** `getParent`: the path of the token's parent, `None` for `null`. A symbol lying
      directly in the top token has none (see the module comment). */
  function Parent(t: Node, p: Path): (r: Option<Path>)
    requires ValidPath(t, p)
    ensures r.Some? ==> ValidPath(t, r.value) && Above(r.value, p) && At(t, r.value).Comp?
    decreases |p|
  {
    if p == [] then None
    else
      AtPrefixChild(t, p);
      var q := p[..|p| - 1];
      if At(t, p).Sym? then (if q == [] then None else Some(q))
      else
        var r := Holder(t, q);
        if r.Some? then
          assert q[..|r.value|] == p[..|r.value|];
          PrefixValid(t, p, |r.value|);
          r
        else r
  }

  /** `getDepth`: a `Root` is at depth 0, so is a symbol without a parent; any other token is one
      deeper than its parent. `None` is the `NullPointerException` of a parentless composite. */
  function Depth(t: Node, p: Path): Option<nat>
    requires ValidPath(t, p)
    decreases |p|
  {
    if InstanceOf(At(t, p), RootC) then Some(0)
    else match Parent(t, p)
      case None => if At(t, p).Sym? then Some(0) else None
      case Some(q) =>
        match Depth(t, q)
        case Some(d) => Some(d + 1)
        case None => None
  }

  /** `findParent(kind)`: the parent if it is of that kind, else the parent's own search if the
      parent is a `NodeToken`, else null. */
  function FindParent(t: Node, p: Path, k: Cls): (r: Option<Path>)
    requires ValidPath(t, p)
    ensures r.Some? ==> ValidPath(t, r.value) && Above(r.value, p) && InstanceOf(At(t, r.value), k)
    decreases |p|
  {
    match Parent(t, p)
    case None => None
    case Some(q) =>
      if InstanceOf(At(t, q), k) then Some(q)
      else if InstanceOf(At(t, q), NodeTokenC) then
        var r := FindParent(t, q, k);
        if r.Some? then assert q[..|r.value|] == p[..|r.value|]; r else r
      else None
  }

  /** `getRoot`: the parent if it is a root token, else the parent's own root; a missing parent or a
      parent that is no `NodeToken` makes Java throw, here `None`. */
  function GetRoot(t: Node, p: Path): Option<Path>
    requires ValidPath(t, p)
    decreases |p|
  {
    match Parent(t, p)
    case None => None
    case Some(q) =>
      if InstanceOf(At(t, q), RootC) then Some(q)
      else if InstanceOf(At(t, q), NodeTokenC) then GetRoot(t, q)
      else None
  }

  /** The parent chain `findParent` walks: the parent, then (while the current one is a
      `NodeToken`) its parent, and so on. */
  function Ancestry(t: Node, p: Path): (a: seq<Path>)
    requires ValidPath(t, p)
    ensures forall i :: 0 <= i < |a| ==> ValidPath(t, a[i]) && Above(a[i], p)
    decreases |p|
  {
    match Parent(t, p)
    case None => []
    case Some(q) =>
      if InstanceOf(At(t, q), NodeTokenC) then
        var rest := Ancestry(t, q);
        assert forall i :: 0 <= i < |rest| ==> q[..|rest[i]|] == p[..|rest[i]|];
        [q] + rest
      else [q]
  }

  /** When `findParent(k)` returns null, no token on the parent chain is of kind `k`. */
  lemma {:induction false} FindParentNone(t: Node, p: Path, k: Cls)
    requires ValidPath(t, p)
    ensures var a := Ancestry(t, p);
      FindParent(t, p, k).None? ==> forall i :: 0 <= i < |a| ==> !InstanceOf(At(t, a[i]), k)
    decreases |p|
  {
    match Parent(t, p)
    case None =>
    case Some(q) =>
      if !InstanceOf(At(t, q), k) && InstanceOf(At(t, q), NodeTokenC) {
        FindParentNone(t, q, k);
        var rest := Ancestry(t, q);
        var a := Ancestry(t, p);
        assert a == [q] + rest;
        if FindParent(t, q, k).None? {
          assert FindParent(t, q, k).None? ==> forall j :: 0 <= j < |Ancestry(t, q)| ==> !InstanceOf(At(t, Ancestry(t, q)[j]), k);
          forall i | 0 <= i < |a|
            ensures !InstanceOf(At(t, a[i]), k)
          {
            if i > 0 { assert a[i] == rest[i - 1]; } else { assert a[0] == q; }
          }
        }
      } else if !InstanceOf(At(t, q), k) {
        assert Ancestry(t, p) == [q];
      }
  }

  /** The token `findParent(k)` returns sits at position `i` of the parent chain, and
      no token before it on the chain is of kind `k`. */
  lemma {:induction false} FindParentPosition(t: Node, p: Path, k: Cls) returns (i: nat)
    requires ValidPath(t, p)
    ensures var a := Ancestry(t, p);
      FindParent(t, p, k).Some? ==>
        i < |a| && a[i] == FindParent(t, p, k).value && InstanceOf(At(t, a[i]), k)
        && forall j :: 0 <= j < i ==> !InstanceOf(At(t, a[j]), k)
    decreases |p|
  {
    i := 0;
    match Parent(t, p)
    case None =>
    case Some(q) =>
      if !InstanceOf(At(t, q), k) && InstanceOf(At(t, q), NodeTokenC) {
        var i' := FindParentPosition(t, q, k);
        var rest := Ancestry(t, q);
        var a := Ancestry(t, p);
        assert a == [q] + rest;
        i := i' + 1;
        if FindParent(t, q, k).Some? {
          assert a[i] == rest[i'];
          forall j | 0 <= j < i ensures !InstanceOf(At(t, a[j]), k) {
            if j > 0 { assert a[j] == rest[j - 1]; }
          }
        }
      } else if InstanceOf(At(t, q), k) {
        assert Ancestry(t, p)[0] == q;
      }
  }

  /** `findParent(k)` returns the first token of kind `k` on the parent chain, and null exactly
      when no token on the chain is of kind `k`. */
  lemma FindParentIsFirstOnChain(t: Node, p: Path, k: Cls)
    requires ValidPath(t, p)
    ensures var a := Ancestry(t, p);
      FindParent(t, p, k).None? <==> (forall i :: 0 <= i < |a| ==> !InstanceOf(At(t, a[i]), k))
    ensures var a := Ancestry(t, p);
      FindParent(t, p, k).Some? ==>
        exists i :: 0 <= i < |a| && a[i] == FindParent(t, p, k).value &&
          forall j :: 0 <= j < i ==> !InstanceOf(At(t, a[j]), k)
  {
    FindParentNone(t, p, k);
    var i := FindParentPosition(t, p, k);
  }

  /** `getRoot` is `findParent(Root)`. */
  lemma {:induction false} GetRootIsFindParent(t: Node, p: Path)
    requires ValidPath(t, p)
    ensures GetRoot(t, p) == FindParent(t, p, RootC)
    decreases |p|
  {
    match Parent(t, p)
    case None =>
    case Some(q) =>
      if !InstanceOf(At(t, q), RootC) && InstanceOf(At(t, q), NodeTokenC) {
        GetRootIsFindParent(t, q);
      }
  }

  /** In a tree whose top is a `Root`, with no `Root` or `Union` below the top on the way to a
      token (and a symbol at least two levels down), the token's depth is its path length. */
  lemma {:induction false} DepthIsPathLength(t: Node, p: Path)
    requires ValidPath(t, p) && InstanceOf(t, RootC)
    requires forall j :: 0 < j <= |p| && ValidPath(t, p[..j]) ==> !InstanceOf(At(t, p[..j]), RootC) && !InstanceOf(At(t, p[..j]), UnionC)
    requires At(t, p).Sym? ==> |p| >= 2
    ensures Depth(t, p) == Some(|p|)
    decreases |p|
  {
    if p != [] {
      assert p[..|p|] == p;
      AtPrefixChild(t, p);
      var q := p[..|p| - 1];
      PrefixValid(t, p, |p| - 1);
      if q != [] {
        assert p[..|q|] == q;
        assert !InstanceOf(At(t, q), UnionC);
      } else if InstanceOf(t, UnionC) {
        IsALinear(ClsOf(t), RootC, UnionC);
        assert false;
      }
      assert Holder(t, q) == Some(q);
      assert Parent(t, p) == Some(q);
      forall j | 0 < j <= |q| && ValidPath(t, q[..j])
        ensures !InstanceOf(At(t, q[..j]), RootC) && !InstanceOf(At(t, q[..j]), UnionC)
      {
        assert q[..j] == p[..j];
      }
      if q != [] {
        assert At(t, q).Comp?;
        DepthIsPathLength(t, q);
      }
    }
  }

  /** A token built inside a `Union` reports the `Union`'s parent as its own. */
  lemma UnionChildReportsGrandparent(k: Cls, c: Cls, cs: seq<Node>, u: Cls)
    requires !IsA(k, UnionC) && IsA(u, UnionC)
    ensures var t := Comp(k, [Comp(u, [Comp(c, cs)])]);
      ValidPath(t, [0, 0]) && Parent(t, [0, 0]) == Some([])
  {
    var t := Comp(k, [Comp(u, [Comp(c, cs)])]);
    assert At(t, [0, 0]) == Comp(c, cs);
    assert [0, 0][..1] == [0];
    assert At(t, [0]) == Comp(u, [Comp(c, cs)]);
    assert [0][..0] == [];
  }

  /** The depth test of the engine: after parsing "ABC" with a `DefinedChar` under a root, the
      root is at depth 0, the token at 1, its character at 2, and the unparsed 'B' at 0. */
  lemma DepthExample(rc: Cls)
    requires IsA(rc, RootC)
    ensures var t := Comp(rc, [Comp(DefinedCharC, [Sym(AtomS('A'), 0)]), Sym(AtomS('B'), 1), Sym(AtomS('C'), 2), Sym(EofS, 3)]);
      ValidPath(t, [0, 0]) && ValidPath(t, [1]) &&
      Depth(t, []) == Some(0) && Depth(t, [0]) == Some(1) && Depth(t, [0, 0]) == Some(2) && Depth(t, [1]) == Some(0)
  {
    var t := Comp(rc, [Comp(DefinedCharC, [Sym(AtomS('A'), 0)]), Sym(AtomS('B'), 1), Sym(AtomS('C'), 2), Sym(EofS, 3)]);
    assert [0, 0][..1] == [0];
    assert [0][..0] == [];
    assert [1][..0] == [];
    assert At(t, [0]) == Comp(DefinedCharC, [Sym(AtomS('A'), 0)]);
    assert At(t, [0, 0]) == Sym(AtomS('A'), 0);
    assert At(t, [1]) == Sym(AtomS('B'), 1);
    assert Parent(t, [0]) == Some([]);
    assert Parent(t, [0, 0]) == Some([0]);
    assert Parent(t, [1]) == None;
  }

  /** `getTreeRepr`: the token's line indented by one tab per level of depth. */
  function Indent(d: nat): (r: string)
    ensures |r| == d && forall i :: 0 <= i < |r| ==> r[i] == '\t'
  {
    if d == 0 then "" else "\t" + Indent(d - 1)
  }
}
