/** An XML document as lxml presents it to the editing routines: an ordered
    tree whose nodes have a tag, an attribute map, optional text and an
    ordered list of children. A node is addressed by its Path, the child
    indices leading to it from the root. */
module XmlTree {
  import opened Wrappers

  datatype Element = Element(tag: string, attrs: map<string, string>, text: Option<string>, children: seq<Element>)

  /** The part of a node that does not depend on its children. */
  datatype Label = Label(tag: string, attrs: map<string, string>, text: Option<string>)

  function LabelOf(e: Element): Label {
    Label(e.tag, e.attrs, e.text)
  }

  /** An element with attributes and no text or children, as `et.Element(tag, attrib=...)` builds it. */
  function Leaf(tag: string, attrs: map<string, string>): Element {
    Element(tag, attrs, None, [])
  }

  type Path = seq<nat>

  predicate ValidPath(e: Element, p: Path)
    decreases |p|
  {
    |p| == 0 || (p[0] < |e.children| && ValidPath(e.children[p[0]], p[1..]))
  }

  function Get(e: Element, p: Path): Element
    requires ValidPath(e, p)
    decreases |p|
  {
    if |p| == 0 then e else Get(e.children[p[0]], p[1..])
  }

  /** The path of the parent of the node at `p` (`getparent()`). */
  function Parent(p: Path): Path
    requires |p| > 0
  {
    p[..|p| - 1]
  }

  /** A path descends through `a` and then through `b` exactly when `a` is a path
      and `b` is a path of the node found there. */
  lemma {:induction false} GetAppend(e: Element, a: Path, b: Path)
    ensures ValidPath(e, a + b) ==> ValidPath(e, a)
    ensures ValidPath(e, a) ==> (ValidPath(e, a + b) <==> ValidPath(Get(e, a), b))
    ensures ValidPath(e, a + b) ==> Get(e, a + b) == Get(Get(e, a), b)
    decreases |a|
  {
    if |a| == 0 {
      assert a + b == b;
    } else {
      assert (a + b)[0] == a[0];
      assert (a + b)[1..] == a[1..] + b;
      if a[0] < |e.children| {
        GetAppend(e.children[a[0]], a[1..], b);
      }
    }
  }

  lemma PrefixValid(e: Element, p: Path, k: nat)
    requires ValidPath(e, p) && k <= |p|
    ensures ValidPath(e, p[..k])
  {
    assert p == p[..k] + p[k..];
    GetAppend(e, p[..k], p[k..]);
  }

  lemma ParentValid(e: Element, p: Path)
    requires ValidPath(e, p) && |p| > 0
    ensures ValidPath(e, Parent(p))
    ensures |Get(e, Parent(p)).children| > p[|p| - 1]
    ensures Get(e, Parent(p)).children[p[|p| - 1]] == Get(e, p)
  {
    assert p == Parent(p) + [p[|p| - 1]];
    GetAppend(e, Parent(p), [p[|p| - 1]]);
  }

  // ---------------------------------------------------------------------
  // The XPath subset the routines use

  /** A predicate of a location step: none, `[@key='value']` or `[text()='t']`. */
  datatype Cond = NoCond | AttrIs(key: string, value: string) | TextIs(text: string)

  /** A location step `tag[cond]`; a `tag` of None is the wildcard `*`. */
  datatype Step = Step(tag: Option<string>, cond: Cond)

  /** `//self` (parent None) or `//parent/self`. `withRoot` tells whether the root
      element itself is a candidate: true for an absolute `//x`, false for `.//x`
      evaluated from the root. Under `.//parent/self` the parent step, too,
      matches only elements below the root. */
  datatype Query = Query(parent: Option<Step>, self: Step, withRoot: bool)

  predicate StepMatches(s: Step, l: Label) {
    && (s.tag.None? || s.tag.value == l.tag)
    && match s.cond
       case NoCond => true
       case AttrIs(k, v) => k in l.attrs && l.attrs[k] == v
       case TextIs(t) => l.text == Some(t)
  }

  /** The node at `p` is selected by `q`. */
  predicate MatchesAt(e: Element, p: Path, q: Query)
    requires ValidPath(e, p)
  {
    && StepMatches(q.self, LabelOf(Get(e, p)))
    && (q.withRoot || |p| > 0)
    && (q.parent.Some? ==>
          && |p| > 0
          && (q.withRoot || |p| > 1)
          && (ParentValid(e, p); StepMatches(q.parent.value, LabelOf(Get(e, Parent(p))))))
  }

  // ---------------------------------------------------------------------
  // Document order

  /** `a` comes before `b` in document order: `a` is an ancestor of `b`, or
      the first index where they differ is smaller in `a`. */
  predicate Before(a: Path, b: Path)
    decreases |a|
  {
    |b| > 0 && (|a| == 0 || a[0] < b[0] || (a[0] == b[0] && Before(a[1..], b[1..])))
  }

  lemma {:induction false} BeforeIrreflexive(a: Path)
    ensures !Before(a, a)
    decreases |a|
  {
    if |a| > 0 {
      BeforeIrreflexive(a[1..]);
    }
  }

  lemma {:induction false} BeforeAsymmetric(a: Path, b: Path)
    requires Before(a, b)
    ensures !Before(b, a)
    decreases |a|
  {
    if |a| > 0 && a[0] == b[0] {
      BeforeAsymmetric(a[1..], b[1..]);
    }
  }

  /** Every path of `ps` comes before every later one. */
  predicate InOrder(ps: seq<Path>) {
    forall j, k {:trigger Before(ps[j], ps[k])} :: 0 <= j < k < |ps| ==> Before(ps[j], ps[k])
  }

  lemma ConcatInOrder(a: seq<Path>, b: seq<Path>)
    requires InOrder(a) && InOrder(b)
    requires forall x, y :: x in a && y in b ==> Before(x, y)
    ensures InOrder(a + b)
  {
    forall j, k | 0 <= j < k < |a + b| ensures Before((a + b)[j], (a + b)[k]) {
      if k < |a| {
        assert (a + b)[j] == a[j] && (a + b)[k] == a[k];
      } else if j >= |a| {
        assert (a + b)[j] == b[j - |a|] && (a + b)[k] == b[k - |a|];
      } else {
        assert (a + b)[j] == a[j] && (a + b)[k] == b[k - |a|];
      }
    }
  }

  /** Every path of `e`, in document (pre-)order. */
  function AllPaths(e: Element): seq<Path>
    decreases e, 1
  {
    [[]] + ChildPaths(e, 0)
  }

  function ChildPaths(e: Element, i: nat): seq<Path>
    decreases e, 0, |e.children| - i
  {
    if i >= |e.children| then [] else Prefixed(i, AllPaths(e.children[i])) + ChildPaths(e, i + 1)
  }

  function Prefixed(i: nat, ps: seq<Path>): (r: seq<Path>)
    ensures |r| == |ps|
    ensures forall j :: 0 <= j < |ps| ==> r[j] == [i] + ps[j]
  {
    seq(|ps|, j requires 0 <= j < |ps| => [i] + ps[j])
  }

  lemma {:induction false} AllPathsComplete(e: Element)
    ensures forall p :: p in AllPaths(e) <==> ValidPath(e, p)
    decreases e, 1
  {
    ChildPathsComplete(e, 0);
    forall p ensures p in AllPaths(e) <==> ValidPath(e, p) {
      if p in AllPaths(e) && p != [] {
        assert p in ChildPaths(e, 0);
      }
    }
  }

  lemma {:induction false} ChildPathsComplete(e: Element, i: nat)
    ensures forall p :: p in ChildPaths(e, i) <==>
      |p| > 0 && i <= p[0] && ValidPath(e, p)
    decreases e, 0, |e.children| - i
  {
    if i < |e.children| {
      AllPathsComplete(e.children[i]);
      ChildPathsComplete(e, i + 1);
      var here := Prefixed(i, AllPaths(e.children[i]));
      forall p ensures p in ChildPaths(e, i) <==> |p| > 0 && i <= p[0] && ValidPath(e, p) {
        if p in here {
          var j :| 0 <= j < |here| && here[j] == p;
          assert p[1..] == AllPaths(e.children[i])[j];
        }
        if |p| > 0 && p[0] == i && ValidPath(e, p) {
          assert p == [i] + p[1..];
          var all := AllPaths(e.children[i]);
          assert ValidPath(e.children[i], p[1..]);
          assert p[1..] in all;
          var j :| 0 <= j < |all| && all[j] == p[1..];
          assert here[j] == p;
        }
      }
    }
  }

  /** `AllPaths` lists the paths in document order. */
  lemma {:induction false} AllPathsInOrder(e: Element)
    ensures InOrder(AllPaths(e))
    decreases e, 1
  {
    var rest := ChildPaths(e, 0);
    ChildPathsInOrder(e, 0);
    ChildPathsComplete(e, 0);
    ConcatInOrder([[]], rest);
  }

  lemma {:induction false} ChildPathsInOrder(e: Element, i: nat)
    ensures InOrder(ChildPaths(e, i))
    decreases e, 0, |e.children| - i
  {
    if i < |e.children| {
      var all := AllPaths(e.children[i]);
      var here, rest := Prefixed(i, all), ChildPaths(e, i + 1);
      AllPathsInOrder(e.children[i]);
      ChildPathsInOrder(e, i + 1);
      ChildPathsComplete(e, i + 1);
      forall j, k | 0 <= j < k < |here| ensures Before(here[j], here[k]) {
        assert Before(all[j], all[k]);
        assert here[j][1..] == all[j] && here[k][1..] == all[k];
      }
      forall x, y | x in here && y in rest ensures Before(x, y) {
        var j :| 0 <= j < |here| && here[j] == x;
        assert x[0] == i;
      }
      ConcatInOrder(here, rest);
    }
  }

  /** The members of `ps` selected by `q`, in the order of `ps`. */
  function Select(e: Element, ps: seq<Path>, q: Query): (r: seq<Path>)
    requires forall p :: p in ps ==> ValidPath(e, p)
    ensures forall p :: p in r <==> p in ps && MatchesAt(e, p, q)
    ensures |r| <= |ps|
  {
    if |ps| == 0 then []
    else (if MatchesAt(e, ps[0], q) then [ps[0]] else []) + Select(e, ps[1..], q)
  }

  /** Selecting keeps the order. */
  lemma {:induction false} SelectInOrder(e: Element, ps: seq<Path>, q: Query)
    requires forall p :: p in ps ==> ValidPath(e, p)
    requires InOrder(ps)
    ensures InOrder(Select(e, ps, q))
  {
    if |ps| > 0 {
      var tail := ps[1..];
      assert InOrder(tail) by {
        forall j, k | 0 <= j < k < |tail| ensures Before(tail[j], tail[k]) {
          assert tail[j] == ps[j + 1] && tail[k] == ps[k + 1];
        }
      }
      SelectInOrder(e, tail, q);
      var head := if MatchesAt(e, ps[0], q) then [ps[0]] else [];
      forall x, y | x in head && y in Select(e, tail, q) ensures Before(x, y) {
        var k :| 0 <= k < |tail| && tail[k] == y;
        assert y == ps[k + 1];
      }
      ConcatInOrder(head, Select(e, tail, q));
    }
  }

  /** `root.xpath(q)`: every node selected by `q`, in document order. */
  function FindAll(e: Element, q: Query): (r: seq<Path>)
    ensures forall p :: p in r <==> ValidPath(e, p) && MatchesAt(e, p, q)
    ensures InOrder(r)
  {
    AllPathsComplete(e);
    AllPathsInOrder(e);
    SelectInOrder(e, AllPaths(e), q);
    Select(e, AllPaths(e), q)
  }

  /** A list in document order has no path twice. */
  lemma InOrderDistinct(ps: seq<Path>, j: nat, k: nat)
    requires InOrder(ps) && j < k < |ps|
    ensures ps[j] != ps[k]
  {
    BeforeIrreflexive(ps[j]);
  }

  /** `root.xpath(q)[0]` where the list is non-empty: the first match in
      document order. `root.find(q)` is `Find`. */
  function FindFirst(e: Element, q: Query): (r: Option<Path>)
    ensures r.Some? <==> exists p :: ValidPath(e, p) && MatchesAt(e, p, q)
    ensures r.Some? ==> ValidPath(e, r.value) && MatchesAt(e, r.value, q)
    ensures r.Some? ==> forall p :: ValidPath(e, p) && MatchesAt(e, p, q) && p != r.value ==>
      Before(r.value, p) && !Before(p, r.value)
  {
    var all := FindAll(e, q);
    if |all| > 0 then
      assert all[0] in all;
      assert forall p :: ValidPath(e, p) && MatchesAt(e, p, q) && p != all[0] ==>
        Before(all[0], p) && !Before(p, all[0]) by {
        forall p | ValidPath(e, p) && MatchesAt(e, p, q) && p != all[0]
          ensures Before(all[0], p) && !Before(p, all[0])
        {
          var k :| 0 <= k < |all| && all[k] == p;
          BeforeAsymmetric(all[0], p);
        }
      }
      Some(all[0])
    else
      assert forall p :: ValidPath(e, p) && MatchesAt(e, p, q) ==> p in all;
      None
  }

  // ---------------------------------------------------------------------
  // ElementPath's `find`

  /** The parent step of `.//parent/self` as a query of its own, from the same context. */
  function ParentQuery(q: Query): Query
    requires q.parent.Some?
  {
    Query(None, q.parent.value, q.withRoot)
  }

  /** The first of the children `i ..` of `cs` that step `s` selects. */
  function FirstChildFrom(cs: seq<Element>, s: Step, i: nat): (r: Option<nat>)
    requires i <= |cs|
    ensures r.Some? ==> i <= r.value < |cs| && StepMatches(s, LabelOf(cs[r.value]))
    ensures r.Some? ==> forall j :: i <= j < r.value ==> !StepMatches(s, LabelOf(cs[j]))
    ensures r.None? ==> forall j :: i <= j < |cs| ==> !StepMatches(s, LabelOf(cs[j]))
    decreases |cs| - i
  {
    if i == |cs| then None
    else if StepMatches(s, LabelOf(cs[i])) then Some(i)
    else FirstChildFrom(cs, s, i + 1)
  }

  /** ElementPath on `parent/self`: the parents `ps[k ..]` in turn, and under
      the first one that has any, its first child the step selects. The result
      is the index into `ps` and the child index. */
  function FirstUnder(e: Element, ps: seq<Path>, s: Step, k: nat): (r: Option<(nat, nat)>)
    requires k <= |ps| && forall j :: 0 <= j < |ps| ==> ValidPath(e, ps[j])
    ensures r.Some? ==>
      && k <= r.value.0 < |ps|
      && r.value.1 < |Get(e, ps[r.value.0]).children|
      && StepMatches(s, LabelOf(Get(e, ps[r.value.0]).children[r.value.1]))
      && (forall i :: 0 <= i < r.value.1 ==> !StepMatches(s, LabelOf(Get(e, ps[r.value.0]).children[i])))
      && (forall j, i :: k <= j < r.value.0 && 0 <= i < |Get(e, ps[j]).children| ==>
            !StepMatches(s, LabelOf(Get(e, ps[j]).children[i])))
    ensures r.None? ==> forall j, i :: k <= j < |ps| && 0 <= i < |Get(e, ps[j]).children| ==>
      !StepMatches(s, LabelOf(Get(e, ps[j]).children[i]))
    decreases |ps| - k
  {
    if k == |ps| then None
    else match FirstChildFrom(Get(e, ps[k]).children, s, 0)
      case Some(i) => Some((k, i))
      case None => FirstUnder(e, ps, s, k + 1)
  }

  /** A match of `parent/self` is a child of a match of the parent step. */
  lemma ChildMatch(e: Element, q: Query, p: Path)
    requires q.parent.Some? && ValidPath(e, p) && MatchesAt(e, p, q)
    ensures |p| > 0 && Parent(p) in FindAll(e, ParentQuery(q))
    ensures p == Parent(p) + [p[|p| - 1]] && p[|p| - 1] < |Get(e, Parent(p)).children|
    ensures StepMatches(q.self, LabelOf(Get(e, Parent(p)).children[p[|p| - 1]]))
  {
    ParentValid(e, p);
  }

  /** A child the step selects, of a match of the parent step, is a match. */
  lemma ParentMatch(e: Element, q: Query, pp: Path, i: nat)
    requires q.parent.Some? && pp in FindAll(e, ParentQuery(q))
    requires i < |Get(e, pp).children| && StepMatches(q.self, LabelOf(Get(e, pp).children[i]))
    ensures ValidPath(e, pp + [i]) && Parent(pp + [i]) == pp && MatchesAt(e, pp + [i], q)
  {
    GetAppend(e, pp, [i]);
    assert (pp + [i])[..|pp|] == pp;
  }

  /** The order in which ElementPath yields the matches of `parent/self`: by
      parent in document order, then by position among that parent's children. */
  predicate ChildOrder(a: Path, b: Path) {
    |a| > 0 && |b| > 0 && (Before(Parent(a), Parent(b)) || (Parent(a) == Parent(b) && a[|a| - 1] < b[|b| - 1]))
  }

  /** `root.find(q)`, which lxml evaluates with ElementPath. A one-step query
      gives the first match in document order. For `parent/self` it goes
      through the parent matches in document order and yields each one's
      children in turn, so when parent matches nest, a child of an outer
      parent comes before the children of a parent nested inside it. */
  function Find(e: Element, q: Query): (r: Option<Path>)
    ensures r.Some? <==> exists p :: ValidPath(e, p) && MatchesAt(e, p, q)
    ensures r.Some? ==> ValidPath(e, r.value) && MatchesAt(e, r.value, q)
    ensures q.parent.None? ==> r == FindFirst(e, q)
    ensures q.parent.Some? && r.Some? ==>
      forall p :: ValidPath(e, p) && MatchesAt(e, p, q) && p != r.value ==> ChildOrder(r.value, p)
  {
    if q.parent.None? then FindFirst(e, q)
    else
      var ps := FindAll(e, ParentQuery(q));
      assert forall j :: 0 <= j < |ps| ==> ps[j] in ps;
      var u := FirstUnder(e, ps, q.self, 0);
      FindParentCase(e, q, ps, u);
      if u.None? then None else Some(ps[u.value.0] + [u.value.1])
  }

  lemma FindParentCase(e: Element, q: Query, ps: seq<Path>, u: Option<(nat, nat)>)
    requires q.parent.Some? && ps == FindAll(e, ParentQuery(q))
    requires forall j :: 0 <= j < |ps| ==> ValidPath(e, ps[j])
    requires u == FirstUnder(e, ps, q.self, 0)
    ensures u.None? <==> !exists p :: ValidPath(e, p) && MatchesAt(e, p, q)
    ensures u.Some? ==> var r := ps[u.value.0] + [u.value.1];
      && ValidPath(e, r) && MatchesAt(e, r, q)
      && forall p :: ValidPath(e, p) && MatchesAt(e, p, q) && p != r ==> ChildOrder(r, p)
  {
    if u.Some? {
      var k, i := u.value.0, u.value.1;
      assert ps[k] in ps;
      ParentMatch(e, q, ps[k], i);
      forall p | ValidPath(e, p) && MatchesAt(e, p, q) && p != ps[k] + [i]
        ensures ChildOrder(ps[k] + [i], p)
      {
        FirstUnderOrder(e, q, ps, k, i, p);
      }
    } else {
      forall p | ValidPath(e, p) && MatchesAt(e, p, q)
        ensures false
      {
        ChildMatch(e, q, p);
      }
    }
  }

  /** No other match comes before the one FirstUnder picks. */
  lemma FirstUnderOrder(e: Element, q: Query, ps: seq<Path>, k: nat, i: nat, p: Path)
    requires q.parent.Some? && ps == FindAll(e, ParentQuery(q))
    requires forall j :: 0 <= j < |ps| ==> ValidPath(e, ps[j])
    requires FirstUnder(e, ps, q.self, 0) == Some((k, i))
    requires ValidPath(e, p) && MatchesAt(e, p, q) && p != ps[k] + [i]
    ensures ChildOrder(ps[k] + [i], p)
  {
    ChildMatch(e, q, p);
    var kp :| 0 <= kp < |ps| && ps[kp] == Parent(p);
    var r := ps[k] + [i];
    assert Parent(r) == ps[k] && r[|r| - 1] == i;
    if kp == k {
      assert p[|p| - 1] != i;
    } else if kp > k {
      assert Before(ps[k], ps[kp]);
    }
  }
}
