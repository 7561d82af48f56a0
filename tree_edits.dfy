/** The three lxml edits the routines perform, as functions on trees:
    `parent.insert(i, x)`, `el.attrib[k] = v` and `parent.remove(x)`, with how
    the path of every other node moves under each edit. */
module TreeEdits {
  import opened Wrappers
  import opened XmlTree

  /** `a` is a (not necessarily proper) prefix of `b`: `b` is `a` or lies inside it. */
  predicate IsPrefix(a: Path, b: Path) {
    |a| <= |b| && b[..|a|] == a
  }

  // ---------------------------------------------------------------------
  // insert

  /** The position `list.insert(i, x)` actually uses: an index past the end appends. */
  function Clamp(i: nat, n: nat): (k: nat)
    ensures k <= n && (i <= n ==> k == i)
  {
    if i <= n then i else n
  }

  function InsertChild(cs: seq<Element>, i: nat, x: Element): (r: seq<Element>)
    ensures |r| == |cs| + 1
    ensures r[Clamp(i, |cs|)] == x
    ensures forall j :: 0 <= j < Clamp(i, |cs|) ==> r[j] == cs[j]
    ensures forall j :: Clamp(i, |cs|) < j < |r| ==> r[j] == cs[j - 1]
  {
    var k := Clamp(i, |cs|);
    cs[..k] + [x] + cs[k..]
  }

  /** `Get(e, p).insert(i, x)`. */
  function InsertAt(e: Element, p: Path, i: nat, x: Element): Element
    requires ValidPath(e, p)
    decreases |p|
  {
    if |p| == 0 then e.(children := InsertChild(e.children, i, x))
    else e.(children := e.children[p[0] := InsertAt(e.children[p[0]], p[1..], i, x)])
  }

  /** The position at which `InsertAt(e, p, i, x)` places `x`. */
  function InsertIndex(e: Element, p: Path, i: nat): nat
    requires ValidPath(e, p)
  {
    Clamp(i, |Get(e, p).children|)
  }

  /** Where a node that was at `q` is after inserting at position `k` under `p`. */
  function Shift(q: Path, p: Path, k: nat): Path {
    if |q| > |p| && q[..|p|] == p && q[|p|] >= k then q[|p| := q[|p|] + 1] else q
  }

  /** The inverse of Shift, for nodes that are not inside the inserted element. */
  function Unshift(q: Path, p: Path, k: nat): Path {
    if |q| > |p| && q[..|p|] == p && q[|p|] > k then q[|p| := q[|p|] - 1] else q
  }

  /** `q` lies inside the element inserted at position `k` under `p`. */
  predicate Inside(q: Path, p: Path, k: nat) {
    |q| > |p| && q[..|p|] == p && q[|p|] == k
  }

  lemma ShiftCons(q: Path, p: Path, k: nat)
    requires |q| > 0 && |p| > 0 && q[0] == p[0]
    ensures Shift(q, p, k) == [q[0]] + Shift(q[1..], p[1..], k)
    ensures Unshift(q, p, k) == [q[0]] + Unshift(q[1..], p[1..], k)
    ensures Inside(q, p, k) == Inside(q[1..], p[1..], k)
  {
    if |q| > |p| {
      assert q[..|p|] == p <==> q[1..][..|p| - 1] == p[1..] by {
        assert q[..|p|] == [q[0]] + q[1..][..|p| - 1];
        assert p == [p[0]] + p[1..];
      }
    }
  }

  lemma {:induction false} InsertAtTarget(e: Element, p: Path, i: nat, x: Element)
    requires ValidPath(e, p)
    ensures ValidPath(InsertAt(e, p, i, x), p)
    ensures Get(InsertAt(e, p, i, x), p) == Get(e, p).(children := InsertChild(Get(e, p).children, i, x))
    decreases |p|
  {
    if |p| > 0 {
      InsertAtTarget(e.children[p[0]], p[1..], i, x);
    }
  }

  /** Inserting leaves every existing node in place, moving the later siblings
      of the new child (and what lies under them) one position right; a node
      that is not an ancestor of the insertion point keeps its whole subtree. */
  lemma {:induction false} InsertAtShift(e: Element, p: Path, i: nat, x: Element, q: Path)
    requires ValidPath(e, p) && ValidPath(e, q)
    ensures ValidPath(InsertAt(e, p, i, x), Shift(q, p, InsertIndex(e, p, i)))
    ensures LabelOf(Get(InsertAt(e, p, i, x), Shift(q, p, InsertIndex(e, p, i)))) == LabelOf(Get(e, q))
    ensures !IsPrefix(q, p) ==> Get(InsertAt(e, p, i, x), Shift(q, p, InsertIndex(e, p, i))) == Get(e, q)
    decreases |p|
  {
    var k := InsertIndex(e, p, i);
    var n := InsertAt(e, p, i, x);
    if |q| == 0 {
    } else if |p| == 0 {
      var q' := Shift(q, p, k);
      assert q[..0] == p;
      assert q'[0] < |n.children| && n.children[q'[0]] == e.children[q[0]];
      assert q'[1..] == q[1..];
    } else if q[0] != p[0] {
      assert Shift(q, p, k) == q by {
        if |q| > |p| { assert q[..|p|][0] != p[0]; }
      }
      assert !IsPrefix(q, p) by {
        if |q| <= |p| { assert p[..|q|][0] == p[0]; }
      }
    } else {
      ShiftCons(q, p, k);
      InsertAtShift(e.children[p[0]], p[1..], i, x, q[1..]);
      var q' := Shift(q, p, k);
      assert q'[0] == q[0] && q'[1..] == Shift(q[1..], p[1..], k);
      assert IsPrefix(q, p) <==> IsPrefix(q[1..], p[1..]) by {
        if |q| <= |p| {
          assert p[..|q|] == [p[0]] + p[1..][..|q| - 1];
          assert q == [q[0]] + q[1..];
        }
      }
    }
  }

  lemma ParentShift(q: Path, p: Path, k: nat)
    requires |q| > 0
    ensures |Shift(q, p, k)| == |q|
    ensures Parent(Shift(q, p, k)) == Shift(Parent(q), p, k)
  {
    var pq := Parent(q);
    if |pq| > |p| {
      assert pq[..|p|] == q[..|p|] && pq[|p|] == q[|p|];
    }
  }

  /** A node selected by a query is still selected, at its shifted path, after an insertion. */
  lemma InsertAtKeepsMatch(e: Element, p: Path, i: nat, x: Element, q: Path, query: Query)
    requires ValidPath(e, p) && ValidPath(e, q) && MatchesAt(e, q, query)
    ensures ValidPath(InsertAt(e, p, i, x), Shift(q, p, InsertIndex(e, p, i)))
    ensures MatchesAt(InsertAt(e, p, i, x), Shift(q, p, InsertIndex(e, p, i)), query)
  {
    var k := InsertIndex(e, p, i);
    InsertAtShift(e, p, i, x, q);
    if |q| > 0 {
      ParentShift(q, p, k);
      ParentValid(e, q);
      InsertAtShift(e, p, i, x, Parent(q));
    }
  }

  /** A node of the inserted element that the query selects within that element
      (its parent step looking at the element's own nodes) is selected in the
      new tree. */
  lemma InsertedMatch(e: Element, p: Path, i: nat, x: Element, r: Path, query: Query)
    requires ValidPath(e, p) && ValidPath(x, r) && MatchesAt(x, r, query.(withRoot := true))
    ensures ValidPath(InsertAt(e, p, i, x), p + [InsertIndex(e, p, i)] + r)
    ensures MatchesAt(InsertAt(e, p, i, x), p + [InsertIndex(e, p, i)] + r, query)
  {
    var k := InsertIndex(e, p, i);
    InsertAtInserted(e, p, i, x, r);
    if |r| > 0 {
      ParentValid(x, r);
      InsertAtInserted(e, p, i, x, Parent(r));
      assert Parent(p + [k] + r) == p + [k] + Parent(r);
    }
  }

  /** Every node of the new tree is either a shifted old node or inside the
      inserted element. */
  lemma {:induction false} InsertAtUnshift(e: Element, p: Path, i: nat, x: Element, q: Path)
    requires ValidPath(e, p) && ValidPath(InsertAt(e, p, i, x), q)
    requires !Inside(q, p, InsertIndex(e, p, i))
    ensures ValidPath(e, Unshift(q, p, InsertIndex(e, p, i)))
    ensures Shift(Unshift(q, p, InsertIndex(e, p, i)), p, InsertIndex(e, p, i)) == q
    decreases |p|
  {
    var k := InsertIndex(e, p, i);
    var n := InsertAt(e, p, i, x);
    if |q| == 0 {
    } else if |p| == 0 {
      assert q[..0] == p;
      var q' := Unshift(q, p, k);
      assert q'[1..] == q[1..];
      assert n.children[q[0]] == e.children[q'[0]];
    } else if q[0] != p[0] {
      assert Unshift(q, p, k) == q && Shift(q, p, k) == q by {
        if |q| > |p| { assert q[..|p|][0] != p[0]; }
      }
    } else {
      ShiftCons(q, p, k);
      InsertAtUnshift(e.children[p[0]], p[1..], i, x, q[1..]);
      var u := Unshift(q, p, k);
      ShiftCons(u, p, k);
      assert u[1..] == Unshift(q[1..], p[1..], k);
    }
  }

  /** Where a node of the new tree comes from: the inserted element, or the
      old node it was shifted from. */
  lemma InsertOrigin(e: Element, p: Path, i: nat, x: Element, q: Path)
    requires ValidPath(e, p) && ValidPath(InsertAt(e, p, i, x), q)
    ensures var t, k := InsertAt(e, p, i, x), InsertIndex(e, p, i);
      if Inside(q, p, k) then
        ValidPath(x, q[|p| + 1..]) && Get(t, q) == Get(x, q[|p| + 1..])
      else
        && ValidPath(e, Unshift(q, p, k))
        && LabelOf(Get(t, q)) == LabelOf(Get(e, Unshift(q, p, k)))
        && (!IsPrefix(Unshift(q, p, k), p) ==> Get(t, q) == Get(e, Unshift(q, p, k)))
  {
    var k := InsertIndex(e, p, i);
    if Inside(q, p, k) {
      assert q == p + [k] + q[|p| + 1..];
      InsertAtInserted(e, p, i, x, q[|p| + 1..]);
    } else {
      InsertAtUnshift(e, p, i, x, q);
      InsertAtShift(e, p, i, x, Unshift(q, p, k));
    }
  }

  /** The inserted element sits at `p + [k]`, whole. */
  lemma InsertAtInserted(e: Element, p: Path, i: nat, x: Element, r: Path)
    requires ValidPath(e, p)
    ensures ValidPath(InsertAt(e, p, i, x), p + [InsertIndex(e, p, i)] + r) <==> ValidPath(x, r)
    ensures ValidPath(x, r) ==> Get(InsertAt(e, p, i, x), p + [InsertIndex(e, p, i)] + r) == Get(x, r)
  {
    var n := InsertAt(e, p, i, x);
    var k := InsertIndex(e, p, i);
    InsertAtTarget(e, p, i, x);
    GetAppend(n, p, [k]);
    GetAppend(n, p + [k], r);
    assert Get(n, p + [k]) == x;
  }

  // ---------------------------------------------------------------------
  // attribute assignment

  function SetAttr(e: Element, p: Path, key: string, value: string): Element
    requires ValidPath(e, p)
    decreases |p|
  {
    if |p| == 0 then e.(attrs := e.attrs[key := value])
    else e.(children := e.children[p[0] := SetAttr(e.children[p[0]], p[1..], key, value)])
  }

  /** Assigning an attribute changes the label of one node and nothing else. */
  lemma {:induction false} SetAttrAt(e: Element, p: Path, key: string, value: string, q: Path)
    requires ValidPath(e, p)
    ensures ValidPath(SetAttr(e, p, key, value), q) <==> ValidPath(e, q)
    ensures ValidPath(e, q) ==> (LabelOf(Get(SetAttr(e, p, key, value), q)) ==
      if q == p then LabelOf(Get(e, q)).(attrs := Get(e, q).attrs[key := value]) else LabelOf(Get(e, q)))
    decreases |p|, |q|
  {
    var n := SetAttr(e, p, key, value);
    if |q| == 0 {
    } else if |p| == 0 {
      assert q != p;
      assert n.children == e.children;
    } else if q[0] < |e.children| {
      if q[0] == p[0] {
        SetAttrAt(e.children[p[0]], p[1..], key, value, q[1..]);
        assert q == p <==> q[1..] == p[1..] by {
          assert q == [q[0]] + q[1..];
          assert p == [p[0]] + p[1..];
        }
      } else {
        assert n.children[q[0]] == e.children[q[0]];
      }
    }
  }

  // ---------------------------------------------------------------------
  // removal of nodes located beforehand

  /** The subtree `e`, found at absolute path `base`, after every node whose
      absolute path is in `gone` has been taken out of its parent. Removing the
      nodes one after the other, as lxml does with `x.getparent().remove(x)`,
      has this effect on the document whatever their order: a node inside an
      already detached subtree is removed from that subtree only. */
  function RemoveSet(e: Element, gone: set<Path>, base: Path): Element
    decreases e
  {
    e.(children := KeepChildren(e.children, gone, base, 0))
  }

  function KeepChildren(cs: seq<Element>, gone: set<Path>, base: Path, i: nat): seq<Element>
    decreases cs, |cs| - i
  {
    if i >= |cs| then []
    else (if base + [i] in gone then [] else [RemoveSet(cs[i], gone, base + [i])])
         + KeepChildren(cs, gone, base, i + 1)
  }

  /** How many of the children `i .. j-1` under `base` survive. */
  function CountKept(gone: set<Path>, base: Path, i: nat, j: nat): nat
    decreases j - i
  {
    if i >= j then 0 else (if base + [i] in gone then 0 else 1) + CountKept(gone, base, i + 1, j)
  }

  /** No node on the way from `e` (at `base`) to `q`, `q` included, was removed. */
  predicate Kept(e: Element, gone: set<Path>, base: Path, q: Path)
    decreases |q|
  {
    |q| == 0 ||
    (q[0] < |e.children| && base + [q[0]] !in gone && Kept(e.children[q[0]], gone, base + [q[0]], q[1..]))
  }

  /** Where a kept node that was at `q` is after the removals. */
  function Translate(e: Element, gone: set<Path>, base: Path, q: Path): Path
    requires ValidPath(e, q)
    decreases |q|
  {
    if |q| == 0 then []
    else [CountKept(gone, base, 0, q[0])] + Translate(e.children[q[0]], gone, base + [q[0]], q[1..])
  }

  lemma {:induction false} KeepChildrenAt(cs: seq<Element>, gone: set<Path>, base: Path, i: nat, j: nat)
    requires i <= j < |cs| && base + [j] !in gone
    ensures CountKept(gone, base, i, j) < |KeepChildren(cs, gone, base, i)|
    ensures KeepChildren(cs, gone, base, i)[CountKept(gone, base, i, j)] == RemoveSet(cs[j], gone, base + [j])
    decreases j - i
  {
    if i < j {
      KeepChildrenAt(cs, gone, base, i + 1, j);
    }
  }

  /** A node none of whose ancestors was removed is still in the document, at its
      translated path, with the removals below it applied. */
  lemma {:induction false} RemoveSetAt(e: Element, gone: set<Path>, base: Path, q: Path)
    requires ValidPath(e, q) && Kept(e, gone, base, q)
    ensures ValidPath(RemoveSet(e, gone, base), Translate(e, gone, base, q))
    ensures Get(RemoveSet(e, gone, base), Translate(e, gone, base, q)) == RemoveSet(Get(e, q), gone, base + q)
    decreases |q|
  {
    if |q| == 0 {
      assert base + q == base;
    } else {
      KeepChildrenAt(e.children, gone, base, 0, q[0]);
      RemoveSetAt(e.children[q[0]], gone, base + [q[0]], q[1..]);
      assert base + [q[0]] + q[1..] == base + q;
    }
  }

  /** The original index of the `k`-th child kept from `cs[i..]`. */
  function KeptSource(cs: seq<Element>, gone: set<Path>, base: Path, i: nat, k: nat): (j: nat)
    requires k < |KeepChildren(cs, gone, base, i)|
    ensures i <= j < |cs| && base + [j] !in gone && CountKept(gone, base, i, j) == k
    ensures KeepChildren(cs, gone, base, i)[k] == RemoveSet(cs[j], gone, base + [j])
    decreases |cs| - i
  {
    if base + [i] in gone then KeptSource(cs, gone, base, i + 1, k)
    else if k == 0 then i
    else KeptSource(cs, gone, base, i + 1, k - 1)
  }

  /** The converse of RemoveSetAt: every node left after the removals is a kept
      node of the original tree, at its translated path. */
  function Untranslate(e: Element, gone: set<Path>, base: Path, q: Path): (p: Path)
    requires ValidPath(RemoveSet(e, gone, base), q)
    ensures ValidPath(e, p) && Kept(e, gone, base, p) && Translate(e, gone, base, p) == q
    ensures Get(RemoveSet(e, gone, base), q) == RemoveSet(Get(e, p), gone, base + p)
    decreases |q|
  {
    if |q| == 0 then
      assert base + [] == base;
      []
    else
      var j := KeptSource(e.children, gone, base, 0, q[0]);
      var p' := Untranslate(e.children[j], gone, base + [j], q[1..]);
      var p := [j] + p';
      assert p[0] == j && p[1..] == p';
      assert base + [j] + p' == base + p;
      p
  }

  /** A kept node was not itself removed. */
  lemma {:induction false} KeptNotGone(e: Element, gone: set<Path>, base: Path, q: Path)
    requires Kept(e, gone, base, q) && |q| > 0
    ensures base + q !in gone
    decreases |q|
  {
    if |q| > 1 {
      KeptNotGone(e.children[q[0]], gone, base + [q[0]], q[1..]);
      assert base + [q[0]] + q[1..] == base + q;
    } else {
      assert q == [q[0]];
    }
  }

  // ---------------------------------------------------------------------
  // two trees with the same paths and labels are the same tree

  ghost predicate SameShapeAndLabels(a: Element, b: Element) {
    && (forall q :: ValidPath(a, q) <==> ValidPath(b, q))
    && (forall q :: ValidPath(a, q) && ValidPath(b, q) ==> LabelOf(Get(a, q)) == LabelOf(Get(b, q)))
  }

  lemma {:induction false} Extensionality(a: Element, b: Element)
    requires SameShapeAndLabels(a, b)
    ensures a == b
    decreases a
  {
    assert LabelOf(Get(a, [])) == LabelOf(Get(b, []));
    var m, n := |a.children|, |b.children|;
    if m < n {
      assert ValidPath(b, [m]);
    } else if n < m {
      assert ValidPath(a, [n]);
    }
    forall j | 0 <= j < m ensures a.children[j] == b.children[j] {
      forall r ensures ValidPath(a.children[j], r) <==> ValidPath(b.children[j], r)
        ensures ValidPath(a.children[j], r) && ValidPath(b.children[j], r) ==>
          LabelOf(Get(a.children[j], r)) == LabelOf(Get(b.children[j], r))
      {
        var q := [j] + r;
        assert q[0] == j && q[1..] == r;
        assert ValidPath(a, q) <==> ValidPath(b, q);
        if ValidPath(a, q) && ValidPath(b, q) {
          assert LabelOf(Get(a, q)) == LabelOf(Get(b, q));
        }
      }
      Extensionality(a.children[j], b.children[j]);
    }
    assert a.children == b.children;
  }
}
