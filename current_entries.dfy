/** `update_current_years_ranking` and `update_current_years_if`: mark every
    current entry of another year as no longer current, then insert a new
    current entry for the year. */
module CurrentEntries {
  import opened Wrappers
  import opened XmlTree
  import opened TreeEdits
  import opened Text
  import opened Outcomes

  /** `.//tag[@current='true']` */
  function CurrentEntriesOf(tag: string): Query {
    Query(None, Step(Some(tag), AttrIs("current", "true")), false)
  }

  predicate IsCurrent(tag: string, l: Label) {
    l.tag == tag && "current" in l.attrs && l.attrs["current"] == "true"
  }

  /** A current entry whose `year` attribute is not `str(year)`. */
  predicate IsStale(tag: string, l: Label, year: int) {
    IsCurrent(tag, l) && "year" in l.attrs && l.attrs["year"] != IntToString(year)
  }

  /** The body of the demotion loop on one entry. */
  function DemoteLabel(l: Label, tag: string, year: int): Label {
    if IsStale(tag, l, year) then l.(attrs := l.attrs["current" := "false"]) else l
  }

  function Demote(e: Element, tag: string, year: int): Element
    decreases e
  {
    var l := DemoteLabel(LabelOf(e), tag, year);
    Element(l.tag, l.attrs, l.text,
            seq(|e.children|, i requires 0 <= i < |e.children| => Demote(e.children[i], tag, year)))
  }

  /** The demotion loop over the entries `.//` finds: every node but the root. */
  function DemoteBelow(e: Element, tag: string, year: int): Element {
    e.(children := seq(|e.children|, i requires 0 <= i < |e.children| => Demote(e.children[i], tag, year)))
  }

  lemma {:induction false} DemoteAt(e: Element, tag: string, year: int, q: Path)
    ensures ValidPath(Demote(e, tag, year), q) <==> ValidPath(e, q)
    ensures ValidPath(e, q) ==>
      LabelOf(Get(Demote(e, tag, year), q)) == DemoteLabel(LabelOf(Get(e, q)), tag, year) &&
      |Get(Demote(e, tag, year), q).children| == |Get(e, q).children|
    decreases |q|
  {
    if |q| > 0 && q[0] < |e.children| {
      DemoteAt(e.children[q[0]], tag, year, q[1..]);
    }
  }

  /** Demotion keeps every path and changes labels below the root only. */
  lemma DemoteBelowAt(e: Element, tag: string, year: int, q: Path)
    ensures ValidPath(DemoteBelow(e, tag, year), q) <==> ValidPath(e, q)
    ensures ValidPath(e, q) ==>
      LabelOf(Get(DemoteBelow(e, tag, year), q)) ==
        (if |q| == 0 then LabelOf(e) else DemoteLabel(LabelOf(Get(e, q)), tag, year)) &&
      |Get(DemoteBelow(e, tag, year), q).children| == |Get(e, q).children|
  {
    if |q| > 0 && q[0] < |e.children| {
      DemoteAt(e.children[q[0]], tag, year, q[1..]);
    }
  }

  /** Every entry the loop visits has a `year` attribute; otherwise reading
      `attrib['year']` raises KeyError. */
  predicate YearsPresent(e: Element, tag: string) {
    forall p | p in FindAll(e, CurrentEntriesOf(tag)) :: "year" in Get(e, p).attrs
  }

  lemma CurrentHasYear(e: Element, tag: string, p: Path)
    requires YearsPresent(e, tag) && ValidPath(e, p) && |p| > 0 && IsCurrent(tag, LabelOf(Get(e, p)))
    ensures "year" in Get(e, p).attrs
  {
    assert MatchesAt(e, p, CurrentEntriesOf(tag));
    assert p in FindAll(e, CurrentEntriesOf(tag));
  }

  /** Every current entry of `x` is for `year`. */
  ghost predicate OnlyYear(x: Element, tag: string, year: int) {
    forall r :: ValidPath(x, r) && IsCurrent(tag, LabelOf(Get(x, r))) ==>
      "year" in Get(x, r).attrs && Get(x, r).attrs["year"] == IntToString(year)
  }

  /** Demote, then insert `x` as child `i` of the node at `at`. */
  function Replace(e: Element, tag: string, year: int, at: Path, i: nat, x: Element): Element
    requires ValidPath(e, at)
  {
    DemoteBelowAt(e, tag, year, at);
    InsertAt(DemoteBelow(e, tag, year), at, i, x)
  }

  /** The index `x` ends up at: `i`, or the end of a shorter child list. */
  function ReplaceIndex(e: Element, at: Path, i: nat): nat
    requires ValidPath(e, at)
  {
    Clamp(i, |Get(e, at).children|)
  }

  lemma ReplaceIndexIsInsertIndex(e: Element, tag: string, year: int, at: Path, i: nat)
    requires ValidPath(e, at)
    ensures ValidPath(DemoteBelow(e, tag, year), at)
    ensures InsertIndex(DemoteBelow(e, tag, year), at, i) == ReplaceIndex(e, at, i)
  {
    DemoteBelowAt(e, tag, year, at);
  }

  /** Every old node is still there, at its shifted path, with the label the
      demotion gives it. */
  lemma ReplaceMovesOld(e: Element, tag: string, year: int, at: Path, i: nat, x: Element, q: Path)
    requires ValidPath(e, at) && ValidPath(e, q)
    ensures var t, s := Replace(e, tag, year, at, i, x), Shift(q, at, ReplaceIndex(e, at, i));
      ValidPath(t, s) &&
      LabelOf(Get(t, s)) == (if |q| == 0 then LabelOf(e) else DemoteLabel(LabelOf(Get(e, q)), tag, year))
  {
    ReplaceIndexIsInsertIndex(e, tag, year, at, i);
    DemoteBelowAt(e, tag, year, q);
    InsertAtShift(DemoteBelow(e, tag, year), at, i, x, q);
  }

  /** Every node of the new tree is an old node at its shifted path, or a node of `x`. */
  lemma {:induction false} ReplaceCovers(e: Element, tag: string, year: int, at: Path, i: nat, x: Element, q: Path)
    requires ValidPath(e, at) && ValidPath(Replace(e, tag, year, at, i, x), q)
    ensures var t, k := Replace(e, tag, year, at, i, x), ReplaceIndex(e, at, i);
      if Inside(q, at, k) then
        q == at + [k] + q[|at| + 1..] && ValidPath(x, q[|at| + 1..]) && Get(t, q) == Get(x, q[|at| + 1..])
      else
        ValidPath(e, Unshift(q, at, k)) && Shift(Unshift(q, at, k), at, k) == q
  {
    var d := DemoteBelow(e, tag, year);
    var k := ReplaceIndex(e, at, i);
    ReplaceIndexIsInsertIndex(e, tag, year, at, i);
    if Inside(q, at, k) {
      var r := q[|at| + 1..];
      assert q == at + [k] + r;
      InsertAtInserted(d, at, i, x, r);
    } else {
      InsertAtUnshift(d, at, i, x, q);
      DemoteBelowAt(e, tag, year, Unshift(q, at, k));
    }
  }

  /** After the update, every current entry below the root is for `year`,
      provided the inserted element has no current entry of another year. */
  lemma ReplaceOnlyYear(e: Element, tag: string, year: int, at: Path, i: nat, x: Element, q: Path)
    requires ValidPath(e, at) && YearsPresent(e, tag) && OnlyYear(x, tag, year)
    requires ValidPath(Replace(e, tag, year, at, i, x), q) && |q| > 0
    requires IsCurrent(tag, LabelOf(Get(Replace(e, tag, year, at, i, x), q)))
    ensures var n := Get(Replace(e, tag, year, at, i, x), q);
      "year" in n.attrs && n.attrs["year"] == IntToString(year)
  {
    var k := ReplaceIndex(e, at, i);
    if Inside(q, at, k) {
      ReplaceCovers(e, tag, year, at, i, x, q);
    } else {
      ReplaceOldCurrent(e, tag, year, at, i, x, q);
    }
  }

  /** A current entry below the root that is not part of `x` was already a
      current entry for `year`, and is unchanged. */
  lemma ReplaceOldCurrent(e: Element, tag: string, year: int, at: Path, i: nat, x: Element, q: Path)
    requires ValidPath(e, at) && YearsPresent(e, tag)
    requires ValidPath(Replace(e, tag, year, at, i, x), q) && |q| > 0
    requires !Inside(q, at, ReplaceIndex(e, at, i))
    requires IsCurrent(tag, LabelOf(Get(Replace(e, tag, year, at, i, x), q)))
    ensures var k := ReplaceIndex(e, at, i);
      && ValidPath(e, Unshift(q, at, k)) && Shift(Unshift(q, at, k), at, k) == q
      && LabelOf(Get(e, Unshift(q, at, k))) == LabelOf(Get(Replace(e, tag, year, at, i, x), q))
      && IsCurrent(tag, LabelOf(Get(e, Unshift(q, at, k))))
      && "year" in Get(e, Unshift(q, at, k)).attrs
      && Get(e, Unshift(q, at, k)).attrs["year"] == IntToString(year)
  {
    var k := ReplaceIndex(e, at, i);
    ReplaceCovers(e, tag, year, at, i, x, q);
    var old_q := Unshift(q, at, k);
    ReplaceMovesOld(e, tag, year, at, i, x, old_q);
    assert |old_q| == |q|;
    CurrentHasYear(e, tag, old_q);
  }

  // ---------------------------------------------------------------------
  // rankings

  /** The document the retry loop writes in place of a file that does not parse. */
  const RankingsSkeleton := Element("category_rankings", map[], None, [Leaf("category", map[])])

  /** The tree the ranking update works on: the parsed file, or the skeleton. */
  function RankingsDocument(parsed: Option<Element>): (e: Element)
    ensures parsed.Some? ==> e == parsed.value
    ensures parsed.None? ==> e == RankingsSkeleton
  {
    match parsed
    case None => RankingsSkeleton
    case Some(e) => e
  }

  lemma SkeletonPaths(p: Path)
    requires ValidPath(RankingsSkeleton, p)
    ensures p == [] || p == [0]
  {
    if |p| > 0 {
      assert ValidPath(Leaf("category", map[]), p[1..]);
      assert p == [p[0]] + p[1..];
    }
  }

  /** A ranking written into the skeleton: the root gains the new category,
      carrying the ranking's name and its current rank, ahead of the empty
      `category` placeholder; nothing raises, as the skeleton has no ranks. */
  lemma SkeletonRanking(name: string, rank: string, year: int)
    ensures UpdateRanking(RankingsDocument(None), name, rank, year) ==
      Written(Element("category_rankings", map[], None, [NewCategory(name, rank, year), Leaf("category", map[])]))
  {
    var e := RankingsSkeleton;
    forall p | ValidPath(e, p)
      ensures !MatchesAt(e, p, NamedEntries(name)) && !MatchesAt(e, p, CurrentEntriesOf("rank"))
    {
      SkeletonPaths(p);
      if p == [0] {
        assert Get(e, p) == Get(e.children[0], []);
      }
    }
    assert FindFirst(e, NamedEntries(name)).None?;
    assert YearsPresent(e, "rank");
    var leaf := e.children[0];
    assert Demote(leaf, "rank", year) == leaf;
    assert DemoteBelow(e, "rank", year) == e;
    var cs := InsertChild(e.children, 0, NewCategory(name, rank, year));
    assert cs == [NewCategory(name, rank, year), leaf];
  }

  // .//*[text()='name']
  function NamedEntries(name: string): Query {
    Query(None, Step(None, TextIs(name)), false)
  }

  function NewRank(rank: string, year: int): Element {
    Element("rank", map["current" := "true", "year" := IntToString(year)], Some(rank), [])
  }

  /** The new category: a `name` child, then the rank inserted at index 1. */
  function NewCategory(name: string, rank: string, year: int): Element {
    Element("category", map["display_on_homepage" := "false"], None,
            [Element("name", map[], Some(name), []), NewRank(rank, year)])
  }

  /** Where the new rank goes: under the parent of the first element whose
      text is the ranking's name, or under the root inside a new category. */
  function RankAnchor(e: Element, name: string): (at: Path)
    ensures ValidPath(e, at)
  {
    match FindFirst(e, NamedEntries(name))
    case None => []
    case Some(n) => ParentValid(e, n); Parent(n)
  }

  /** The index the new element is inserted at under RankAnchor. */
  function RankIndex(e: Element, name: string): nat {
    if FindFirst(e, NamedEntries(name)).None? then 0 else 1
  }

  /** The element inserted: the new rank, wrapped in a new category when no
      element carries the ranking's name. */
  function RankInsert(e: Element, name: string, rank: string, year: int): Element {
    if FindFirst(e, NamedEntries(name)).None? then NewCategory(name, rank, year) else NewRank(rank, year)
  }

  function UpdateRanking(e: Element, name: string, rank: string, year: int): (o: Outcome)
    ensures o.Raised? <==> !YearsPresent(e, "rank")
    ensures !o.NotWritten?
  {
    if !YearsPresent(e, "rank") then Raised(KeyError("year"))
    else Written(Replace(e, "rank", year, RankAnchor(e, name), RankIndex(e, name), RankInsert(e, name, rank, year)))
  }

  /** The path of the new rank in the updated document. */
  function NewRankPath(e: Element, name: string): Path {
    if FindFirst(e, NamedEntries(name)).None? then [0, 1] else RankAnchor(e, name) + [1]
  }

  lemma NewRankOnlyYear(rank: string, year: int)
    ensures OnlyYear(NewRank(rank, year), "rank", year)
  {
  }

  lemma {:induction false} NewCategoryOnlyYear(name: string, rank: string, year: int)
    ensures OnlyYear(NewCategory(name, rank, year), "rank", year)
    ensures forall r ::
      (ValidPath(NewCategory(name, rank, year), r) && IsCurrent("rank", LabelOf(Get(NewCategory(name, rank, year), r))))
      ==> r == [1]
  {
    var c := NewCategory(name, rank, year);
    forall r | ValidPath(c, r) && IsCurrent("rank", LabelOf(Get(c, r)))
      ensures r == [1] && "year" in Get(c, r).attrs && Get(c, r).attrs["year"] == IntToString(year)
    {
      assert |r| > 0;
      assert r[0] < 2 && ValidPath(c.children[r[0]], r[1..]);
      assert |c.children[r[0]].children| == 0;
      assert |r[1..]| == 0;
      assert r == [r[0]];
      assert Get(c, r) == c.children[r[0]];
    }
  }

  lemma UpdateRankingAnchor(e: Element, name: string)
    requires FindFirst(e, NamedEntries(name)).Some?
    ensures ReplaceIndex(e, RankAnchor(e, name), 1) == 1
  {
    var n := FindFirst(e, NamedEntries(name)).value;
    ParentValid(e, n);
  }

  /** The new rank is in the document, current, for the year, with the rank as text. */
  lemma UpdateRankingNewEntry(e: Element, name: string, rank: string, year: int)
    requires UpdateRanking(e, name, rank, year).Written?
    ensures var t := UpdateRanking(e, name, rank, year).tree;
      ValidPath(t, NewRankPath(e, name)) && Get(t, NewRankPath(e, name)) == NewRank(rank, year)
  {
    var d := DemoteBelow(e, "rank", year);
    if FindFirst(e, NamedEntries(name)).None? {
      ReplaceIndexIsInsertIndex(e, "rank", year, [], 0);
      InsertAtInserted(d, [], 0, NewCategory(name, rank, year), [1]);
      assert [] + [0] + [1] == [0, 1];
    } else {
      var at := RankAnchor(e, name);
      UpdateRankingAnchor(e, name);
      ReplaceIndexIsInsertIndex(e, "rank", year, at, 1);
      InsertAtInserted(d, at, 1, NewRank(rank, year), []);
      assert at + [1] + [] == at + [1];
    }
  }

  /** Every rank below the root that was current for another year is marked
      not current, and every other node keeps its tag, attributes and text. */
  lemma UpdateRankingDemotes(e: Element, name: string, rank: string, year: int, q: Path)
    requires UpdateRanking(e, name, rank, year).Written? && ValidPath(e, q) && |q| > 0
    ensures var t, at := UpdateRanking(e, name, rank, year).tree, RankAnchor(e, name);
      var s := Shift(q, at, ReplaceIndex(e, at, RankIndex(e, name)));
      var l := LabelOf(Get(e, q));
      ValidPath(t, s) &&
      LabelOf(Get(t, s)) == if IsStale("rank", l, year) then l.(attrs := l.attrs["current" := "false"]) else l
  {
    ReplaceMovesOld(e, "rank", year, RankAnchor(e, name), RankIndex(e, name), RankInsert(e, name, rank, year), q);
  }

  /** Afterwards every current rank below the root is for the year. */
  lemma UpdateRankingOnlyYear(e: Element, name: string, rank: string, year: int, q: Path)
    requires UpdateRanking(e, name, rank, year).Written?
    requires var t := UpdateRanking(e, name, rank, year).tree;
      ValidPath(t, q) && |q| > 0 && IsCurrent("rank", LabelOf(Get(t, q)))
    ensures var n := Get(UpdateRanking(e, name, rank, year).tree, q);
      "year" in n.attrs && n.attrs["year"] == IntToString(year)
  {
    NewCategoryOnlyYear(name, rank, year);
    NewRankOnlyYear(rank, year);
    ReplaceOnlyYear(e, "rank", year, RankAnchor(e, name), RankIndex(e, name), RankInsert(e, name, rank, year), q);
  }

  /** The current ranks afterwards are the new one and the ranks that were
      already current for the year: the update adds exactly one. */
  lemma {:induction false} UpdateRankingCurrentEntries(e: Element, name: string, rank: string, year: int, q: Path)
    requires UpdateRanking(e, name, rank, year).Written?
    requires var t := UpdateRanking(e, name, rank, year).tree;
      ValidPath(t, q) && |q| > 0 && IsCurrent("rank", LabelOf(Get(t, q)))
    ensures var t := UpdateRanking(e, name, rank, year).tree;
      q == NewRankPath(e, name) ||
      exists p :: ValidPath(e, p) && |p| == |q| && IsCurrent("rank", LabelOf(Get(e, p))) &&
        Get(e, p).attrs["year"] == IntToString(year) && LabelOf(Get(e, p)) == LabelOf(Get(t, q))
  {
    var t := UpdateRanking(e, name, rank, year).tree;
    var absent := FindFirst(e, NamedEntries(name)).None?;
    var at, i, x := RankAnchor(e, name), RankIndex(e, name), RankInsert(e, name, rank, year);
    var k := ReplaceIndex(e, at, i);
    ReplaceCovers(e, "rank", year, at, i, x, q);
    if Inside(q, at, k) {
      var r := q[|at| + 1..];
      if absent {
        NewCategoryOnlyYear(name, rank, year);
        assert r == [1] && k == 0;
        assert q == [0, 1];
      } else {
        UpdateRankingAnchor(e, name);
        assert r == [];
        assert q == at + [1];
      }
    } else {
      ReplaceOldCurrent(e, "rank", year, at, i, x, q);
      var p := Unshift(q, at, k);
      assert ValidPath(e, p) && |p| == |q|;
    }
  }

  lemma ShiftNeverInside(q: Path, at: Path, k: nat)
    ensures !Inside(Shift(q, at, k), at, k)
  {
  }

  lemma NewRankPathInside(e: Element, name: string)
    ensures Inside(NewRankPath(e, name), RankAnchor(e, name), ReplaceIndex(e, RankAnchor(e, name), RankIndex(e, name)))
  {
    if FindFirst(e, NamedEntries(name)).Some? {
      UpdateRankingAnchor(e, name);
      var at := RankAnchor(e, name);
      assert (at + [1])[..|at|] == at;
    }
  }

  /** A written ranking document can be updated again: every current rank in it has a year. */
  lemma UpdatedYearsPresent(e: Element, name: string, rank: string, year: int)
    requires UpdateRanking(e, name, rank, year).Written?
    ensures YearsPresent(UpdateRanking(e, name, rank, year).tree, "rank")
  {
    var t1 := UpdateRanking(e, name, rank, year).tree;
    forall p | p in FindAll(t1, CurrentEntriesOf("rank")) ensures "year" in Get(t1, p).attrs {
      UpdateRankingOnlyYear(e, name, rank, year, p);
    }
  }

  /** Running the update twice for the same year leaves two current ranks for
      that year, the one from each run: the update is not idempotent. */
  lemma UpdateRankingTwice(e: Element, name: string, rank: string, year: int)
    requires UpdateRanking(e, name, rank, year).Written?
    ensures UpdateRanking(UpdateRanking(e, name, rank, year).tree, name, rank, year).Written?
    ensures var t2 := UpdateRanking(UpdateRanking(e, name, rank, year).tree, name, rank, year).tree;
      exists q1, q2 :: q1 != q2 && ValidPath(t2, q1) && ValidPath(t2, q2) &&
        LabelOf(Get(t2, q1)) == LabelOf(NewRank(rank, year)) && LabelOf(Get(t2, q2)) == LabelOf(NewRank(rank, year))
  {
    var t1 := UpdateRanking(e, name, rank, year).tree;
    UpdatedYearsPresent(e, name, rank, year);
    var t2 := UpdateRanking(t1, name, rank, year).tree;
    var at, i, x := RankAnchor(t1, name), RankIndex(t1, name), RankInsert(t1, name, rank, year);
    var k := ReplaceIndex(t1, at, i);
    UpdateRankingNewEntry(e, name, rank, year);
    UpdateRankingNewEntry(t1, name, rank, year);
    var first := NewRankPath(e, name);
    var q1, q2 := Shift(first, at, k), NewRankPath(t1, name);
    ReplaceMovesOld(t1, "rank", year, at, i, x, first);
    assert |first| > 0;
    NewRankPathInside(t1, name);
    ShiftNeverInside(first, at, k);
    assert q1 != q2;
    assert LabelOf(Get(t2, q1)) == LabelOf(NewRank(rank, year));
    assert LabelOf(Get(t2, q2)) == LabelOf(NewRank(rank, year));
  }

  // ---------------------------------------------------------------------
  // impact factors

  /** `.//ImpactFactors` */
  const ImpactFactorSections := Query(None, Step(Some("ImpactFactors"), NoCond), false)

  /** The new entry; the two values arrive already formatted with three decimals. */
  function NewImpactFactor(oneYear: string, fiveYear: string, year: int): Element {
    Element("ImpactFactor", map["current" := "true", "year" := IntToString(year)], None,
            [Element("OneYear", map[], Some(oneYear), []), Element("FiveYear", map[], Some(fiveYear), [])])
  }

  /** Where the new entry goes: first child of the parent of the first entry
      that was current, else first child of the first ImpactFactors section. */
  function ImpactFactorAnchor(e: Element): (at: Option<Path>)
    ensures at.Some? ==> ValidPath(e, at.value)
    ensures at.None? <==>
      FindAll(e, CurrentEntriesOf("ImpactFactor")) == [] && FindFirst(e, ImpactFactorSections).None?
  {
    var current := FindAll(e, CurrentEntriesOf("ImpactFactor"));
    if |current| > 0 then
      assert current[0] in current;
      ParentValid(e, current[0]);
      Some(Parent(current[0]))
    else FindFirst(e, ImpactFactorSections)
  }

  function UpdateImpactFactor(e: Element, oneYear: string, fiveYear: string, year: int): (o: Outcome)
    ensures o.Raised? <==> !YearsPresent(e, "ImpactFactor") || ImpactFactorAnchor(e).None?
    ensures !o.NotWritten?
  {
    if !YearsPresent(e, "ImpactFactor") then Raised(KeyError("year"))
    else match ImpactFactorAnchor(e)
      case None => Raised(IndexError("impact_factors"))
      case Some(at) => Written(Replace(e, "ImpactFactor", year, at, 0, NewImpactFactor(oneYear, fiveYear, year)))
  }

  lemma {:induction false} NewImpactFactorOnlyYear(oneYear: string, fiveYear: string, year: int)
    ensures OnlyYear(NewImpactFactor(oneYear, fiveYear, year), "ImpactFactor", year)
  {
    var x := NewImpactFactor(oneYear, fiveYear, year);
    forall r | ValidPath(x, r) && IsCurrent("ImpactFactor", LabelOf(Get(x, r)))
      ensures "year" in Get(x, r).attrs && Get(x, r).attrs["year"] == IntToString(year)
    {
      if |r| > 0 {
        assert r[0] < 2 && ValidPath(x.children[r[0]], r[1..]);
        assert |x.children[r[0]].children| == 0;
        assert |r[1..]| == 0;
        assert Get(x, r) == x.children[r[0]];
      }
    }
  }

  /** The new entry is the first child of its anchor. */
  lemma UpdateImpactFactorNewEntry(e: Element, oneYear: string, fiveYear: string, year: int)
    requires UpdateImpactFactor(e, oneYear, fiveYear, year).Written?
    ensures var t, at := UpdateImpactFactor(e, oneYear, fiveYear, year).tree, ImpactFactorAnchor(e).value;
      ValidPath(t, at + [0]) && Get(t, at + [0]) == NewImpactFactor(oneYear, fiveYear, year)
  {
    var at := ImpactFactorAnchor(e).value;
    ReplaceIndexIsInsertIndex(e, "ImpactFactor", year, at, 0);
    InsertAtInserted(DemoteBelow(e, "ImpactFactor", year), at, 0, NewImpactFactor(oneYear, fiveYear, year), []);
    assert at + [0] + [] == at + [0];
  }

  /** Every impact factor that was current for another year is marked not
      current; every other node keeps its tag, attributes and text. */
  lemma UpdateImpactFactorDemotes(e: Element, oneYear: string, fiveYear: string, year: int, q: Path)
    requires UpdateImpactFactor(e, oneYear, fiveYear, year).Written? && ValidPath(e, q) && |q| > 0
    ensures var t, at := UpdateImpactFactor(e, oneYear, fiveYear, year).tree, ImpactFactorAnchor(e).value;
      var s := Shift(q, at, 0);
      var l := LabelOf(Get(e, q));
      ValidPath(t, s) &&
      LabelOf(Get(t, s)) == if IsStale("ImpactFactor", l, year) then l.(attrs := l.attrs["current" := "false"]) else l
  {
    var at := ImpactFactorAnchor(e).value;
    ReplaceMovesOld(e, "ImpactFactor", year, at, 0, NewImpactFactor(oneYear, fiveYear, year), q);
  }

  /** Afterwards every current impact factor below the root is for the year. */
  lemma UpdateImpactFactorOnlyYear(e: Element, oneYear: string, fiveYear: string, year: int, q: Path)
    requires UpdateImpactFactor(e, oneYear, fiveYear, year).Written?
    requires var t := UpdateImpactFactor(e, oneYear, fiveYear, year).tree;
      ValidPath(t, q) && |q| > 0 && IsCurrent("ImpactFactor", LabelOf(Get(t, q)))
    ensures var n := Get(UpdateImpactFactor(e, oneYear, fiveYear, year).tree, q);
      "year" in n.attrs && n.attrs["year"] == IntToString(year)
  {
    NewImpactFactorOnlyYear(oneYear, fiveYear, year);
    ReplaceOnlyYear(e, "ImpactFactor", year, ImpactFactorAnchor(e).value, 0, NewImpactFactor(oneYear, fiveYear, year), q);
  }
}
