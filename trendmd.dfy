/** `trendmd_widget`: remove the related-content widgets and any TrendMD
    placement, put a TrendMD widget in the second right rail block just
    after its last SeeAlso widget, and put its settings first in the
    WidgetSettings section. */
module TrendMd {
  import opened Wrappers
  import opened XmlTree
  import opened TreeEdits
  import opened Outcomes

  // .//*[@name='RightRail']/Block
  const RightRailBlocks := Query(Some(Step(None, AttrIs("name", "RightRail"))), Step(Some("Block"), NoCond), false)
  /** `.//WidgetSettings` */
  const WidgetSettingsBelow := Query(None, Step(Some("WidgetSettings"), NoCond), false)

  // .//*[@type='t']
  function Typed(t: string): Query {
    Query(None, Step(None, AttrIs("type", t)), false)
  }

  // .//Block/*[@type='TrendMD']
  const TrendMdPlacements := Query(Some(Step(Some("Block"), NoCond)), Step(None, AttrIs("type", "TrendMD")), false)
  // .//WidgetSettings/*[@type='TrendMD']
  const TrendMdSettingsEntries := Query(Some(Step(Some("WidgetSettings"), NoCond)), Step(None, AttrIs("type", "TrendMD")), false)

  const TrendMdPlacement := Leaf("Widget", map["type" := "TrendMD", "instanceName" := "trendmd"])

  function TrendMdSettings(id: string): Element {
    Element("WidgetSetting", map["type" := "TrendMD", "instanceName" := "trendmd", "controllerName" := "ThirdParty"], None,
            [Leaf("Setting", map["name" := "Title.Enabled", "value" := "false", "type" := "RuntimeSetting"]),
             Leaf("Setting", map["name" := "TrendMdJournalId", "value" := id, "type" := "RuntimeSetting"])])
  }

  function OptionSet(o: Option<Path>): (s: set<Path>)
    ensures forall p :: p in s <==> o == Some(p)
  {
    match o
    case None => {}
    case Some(p) => {p}
  }

  /** The nodes the removal loop takes out: what `find` returns for
      RelatedContent, RelatedPubMed and a TrendMD placement, those that exist.
      A missing one makes `None.getparent()` raise, which the loop only logs. */
  function Removals(e: Element): set<Path> {
    OptionSet(Find(e, Typed("RelatedContent"))) +
    OptionSet(Find(e, Typed("RelatedPubMed"))) +
    OptionSet(Find(e, TrendMdPlacements))
  }

  /** `find` on a `.//` path returns a node below the root. */
  lemma FoundBelow(e: Element, q: Query, p: Path)
    requires !q.withRoot && p in OptionSet(Find(e, q))
    ensures ValidPath(e, p) && |p| > 0
  {
    assert Find(e, q) == Some(p);
  }

  /** Every removed node is a node below the root. */
  lemma RemovalsBelow(e: Element, p: Path)
    requires p in Removals(e)
    ensures ValidPath(e, p) && |p| > 0
  {
    if p in OptionSet(Find(e, Typed("RelatedContent"))) {
      FoundBelow(e, Typed("RelatedContent"), p);
    } else if p in OptionSet(Find(e, Typed("RelatedPubMed"))) {
      FoundBelow(e, Typed("RelatedPubMed"), p);
    } else {
      FoundBelow(e, TrendMdPlacements, p);
    }
  }

  /** The TrendMD settings found on line 254 are never among the removed
      nodes: the name is rebound to the new settings before it is used. */
  lemma OldSettingsNotRemoved(e: Element, s: Path)
    requires ValidPath(e, s) && MatchesAt(e, s, TrendMdSettingsEntries)
    ensures s !in Removals(e)
  {
    OtherType(e, s, TrendMdSettingsEntries, Typed("RelatedContent"));
    OtherType(e, s, TrendMdSettingsEntries, Typed("RelatedPubMed"));
    OtherParent(e, s, TrendMdSettingsEntries, TrendMdPlacements);
    NotFound(e, Typed("RelatedContent"), s);
    NotFound(e, Typed("RelatedPubMed"), s);
    NotFound(e, TrendMdPlacements, s);
    NotRemoved(e, s);
  }

  /** A node whose `type` one query fixes to one value is not selected by a query fixing another. */
  lemma OtherType(e: Element, s: Path, q: Query, r: Query)
    requires ValidPath(e, s) && MatchesAt(e, s, q)
    requires q.self.cond.AttrIs? && r.self.cond.AttrIs? && q.self.cond.key == r.self.cond.key
    requires q.self.cond.value != r.self.cond.value
    ensures !MatchesAt(e, s, r)
  {
  }

  /** A node whose parent's tag one query fixes is not selected by a query fixing another tag there. */
  lemma OtherParent(e: Element, s: Path, q: Query, r: Query)
    requires ValidPath(e, s) && MatchesAt(e, s, q)
    requires q.parent.Some? && r.parent.Some? && q.parent.value.tag.Some? && r.parent.value.tag.Some?
    requires q.parent.value.tag != r.parent.value.tag
    ensures !MatchesAt(e, s, r)
  {
  }

  /** A node none of the three lookups returns is not removed. */
  lemma NotRemoved(e: Element, s: Path)
    requires s !in OptionSet(Find(e, Typed("RelatedContent"))) && s !in OptionSet(Find(e, Typed("RelatedPubMed")))
    requires s !in OptionSet(Find(e, TrendMdPlacements))
    ensures s !in Removals(e)
  {
  }

  /** A node the query does not select is not what `find` returns. */
  lemma NotFound(e: Element, q: Query, s: Path)
    requires ValidPath(e, s) && !MatchesAt(e, s, q) && !q.withRoot
    ensures s !in OptionSet(Find(e, q))
  {
  }

  /** A Block holding a Block with a TrendMD widget, then a TrendMD widget of its own. */
  function NestedBlocks(): Element {
    var w := Leaf("Widget", map["type" := "TrendMD"]);
    Element("Root", map[], None, [Element("Block", map[], None, [Element("Block", map[], None, [w]), w])])
  }

  /** The two TrendMD widgets are the only placements in NestedBlocks. */
  lemma NestedBlocksPlacements(p: Path)
    requires ValidPath(NestedBlocks(), p) && MatchesAt(NestedBlocks(), p, TrendMdPlacements)
    ensures p == [0, 1] || p == [0, 0, 0]
  {
    var e := NestedBlocks();
    assert p == [p[0]] + p[1..];
    var a := e.children[p[0]];
    assert ValidPath(a, p[1..]) && Get(e, p) == Get(a, p[1..]);
    var t := p[1..];
    assert t == [t[0]] + t[1..];
    var b := a.children[t[0]];
    assert ValidPath(b, t[1..]) && Get(a, t) == Get(b, t[1..]);
    if t[0] == 0 {
      var u := t[1..];
      assert u == [u[0]] + u[1..];
      assert ValidPath(b.children[u[0]], u[1..]);
    }
  }

  /** When a query selects exactly two nodes, `find` returns the one that
      ElementPath yields first. */
  lemma FindOfTwo(e: Element, q: Query, a: Path, b: Path)
    requires q.parent.Some? && ValidPath(e, a) && MatchesAt(e, a, q) && ValidPath(e, b) && MatchesAt(e, b, q)
    requires forall p :: ValidPath(e, p) && MatchesAt(e, p, q) ==> p == a || p == b
    requires !ChildOrder(b, a)
    ensures Find(e, q) == Some(a)
  {
  }

  /** When a query selects exactly two nodes, `xpath(q)[0]` is the one first in document order. */
  lemma FindFirstOfTwo(e: Element, q: Query, a: Path, b: Path)
    requires ValidPath(e, a) && MatchesAt(e, a, q) && ValidPath(e, b) && MatchesAt(e, b, q)
    requires forall p :: ValidPath(e, p) && MatchesAt(e, p, q) ==> p == a || p == b
    requires !Before(b, a)
    ensures FindFirst(e, q) == Some(a)
  {
  }

  /** With one Block inside another, `find` takes the outer Block's own
      TrendMD child, although the nested Block's child comes first in
      document order. */
  lemma NestedBlocksFind()
    ensures Find(NestedBlocks(), TrendMdPlacements) == Some([0, 1])
    ensures FindFirst(NestedBlocks(), TrendMdPlacements) == Some([0, 0, 0])
  {
    var e := NestedBlocks();
    assert Get(e, [0, 1]).attrs == map["type" := "TrendMD"] && Get(e, [0]).tag == "Block";
    assert Get(e, [0, 0, 0]).attrs == map["type" := "TrendMD"] && Get(e, [0, 0]).tag == "Block";
    forall p | ValidPath(e, p) && MatchesAt(e, p, TrendMdPlacements)
      ensures p == [0, 1] || p == [0, 0, 0]
    {
      NestedBlocksPlacements(p);
    }
    NestedOrder();
    FindOfTwo(e, TrendMdPlacements, [0, 1], [0, 0, 0]);
    FindFirstOfTwo(e, TrendMdPlacements, [0, 0, 0], [0, 1]);
  }

  /** The outer Block's child is yielded first, the nested Block's child is first in document order. */
  lemma NestedOrder()
    ensures !ChildOrder([0, 0, 0], [0, 1]) && !Before([0, 1], [0, 0, 0])
  {
    assert Parent([0, 0, 0]) == [0, 0] && Parent([0, 1]) == [0];
    assert [0, 0][1..] == [0] && [0][1..] == [];
    assert [0, 0, 0][1..] == [0, 0] && [0, 1][1..] == [1];
  }

  function AfterRemovals(e: Element): Element {
    RemoveSet(e, Removals(e), [])
  }

  /** A removed node is not kept: it is not in the document after the removals. */
  lemma RemovedNotKept(e: Element, p: Path)
    requires p in Removals(e)
    ensures !Kept(e, Removals(e), [], p)
  {
    RemovalsBelow(e, p);
    GoneNotKept(e, Removals(e), p);
  }

  lemma GoneNotKept(e: Element, gone: set<Path>, p: Path)
    requires p in gone && |p| > 0
    ensures !Kept(e, gone, [], p)
  {
    assert [] + p == p;
    if Kept(e, gone, [], p) {
      KeptNotGone(e, gone, [], p);
    }
  }

  /** A node some original node, not removed and not under a removed one, carries over to. */
  ghost predicate FromKept(e: Element, l: Label) {
    exists p :: ValidPath(e, p) && Kept(e, Removals(e), [], p) && LabelOf(Get(e, p)) == l
  }

  /** Every node left after the removals is a kept original node: it sits at
      the translated path of an original node that is not one of the removed
      ones, and carries that node's label. */
  lemma AfterRemovalsCovers(e: Element, q: Path)
    requires ValidPath(AfterRemovals(e), q)
    ensures FromKept(e, LabelOf(Get(AfterRemovals(e), q)))
    ensures exists p ::
      ValidPath(e, p) && Kept(e, Removals(e), [], p) && p !in Removals(e) && Translate(e, Removals(e), [], p) == q
  {
    var p := Untranslate(e, Removals(e), [], q);
    assert LabelOf(Get(AfterRemovals(e), q)) == LabelOf(Get(e, p));
    if p in Removals(e) {
      RemovedNotKept(e, p);
    }
  }

  /** The second right rail block as the scan sees it: with the removals below it applied. */
  function ScannedRail(e: Element, rail: Path): Element
    requires ValidPath(e, rail)
  {
    RemoveSet(Get(e, rail), Removals(e), rail)
  }

  predicate IsSeeAlso(x: Element) {
    "type" in x.attrs && x.attrs["type"] == "SeeAlso"
  }

  /** The `pos` the scan leaves: one past the last child typed SeeAlso, None
      (the name stays unbound) when there is none. A child without a `type`
      raises KeyError inside the `try`, and so does the Alerts test in its
      handler, so an Alerts child never sets `pos`. */
  function SeeAlsoPosition(cs: seq<Element>): (pos: Option<nat>)
    ensures pos.None? <==> forall j :: 0 <= j < |cs| ==> !IsSeeAlso(cs[j])
    ensures pos.Some? ==>
      && 0 < pos.value <= |cs|
      && IsSeeAlso(cs[pos.value - 1])
      && forall j :: pos.value <= j < |cs| ==> !IsSeeAlso(cs[j])
  {
    if |cs| == 0 then None
    else if IsSeeAlso(cs[|cs| - 1]) then Some(|cs|)
    else SeeAlsoPosition(cs[..|cs| - 1])
  }

  /** The scan as the source runs it, front to back, overwriting `pos` at every
      SeeAlso child. */
  method ScanRightRail(cs: seq<Element>) returns (pos: Option<nat>)
    ensures pos == SeeAlsoPosition(cs)
  {
    pos := None;
    var i := 0;
    while i < |cs|
      invariant 0 <= i <= |cs|
      invariant pos == SeeAlsoPosition(cs[..i])
    {
      assert cs[..i + 1][..i] == cs[..i];
      if "type" in cs[i].attrs && cs[i].attrs["type"] == "SeeAlso" {
        pos := Some(i + 1);
      }
      i := i + 1;
    }
    assert cs[..|cs|] == cs;
  }

  /** An Alerts widget is no substitute for a SeeAlso one. */
  lemma AlertsNotUsed()
    ensures SeeAlsoPosition([Leaf("Widget", map["type" := "Alerts"])]) == None
  {
    assert !IsSeeAlso(Leaf("Widget", map["type" := "Alerts"]));
  }

  /** The document after line 287: the widget inserted into the second right
      rail block, visible only when that block was not removed itself. */
  function WithWidget(e: Element, rail: Path, pos: nat): Element
    requires ValidPath(e, rail)
  {
    if Kept(e, Removals(e), [], rail) then
      RemoveSetAt(e, Removals(e), [], rail);
      InsertAt(AfterRemovals(e), Translate(e, Removals(e), [], rail), pos, TrendMdPlacement)
    else AfterRemovals(e)
  }

  /** Where the first WidgetSettings section is after line 287; None when it
      was inside a removed node. */
  function SettingsTarget(e: Element, rail: Path, pos: nat, ws: Path): Option<Path>
    requires ValidPath(e, rail) && ValidPath(e, ws)
  {
    var gone := Removals(e);
    if !Kept(e, gone, [], ws) then None
    else if !Kept(e, gone, [], rail) then Some(Translate(e, gone, [], ws))
    else
      RemoveSetAt(e, gone, [], rail);
      var r := Translate(e, gone, [], rail);
      Some(Shift(Translate(e, gone, [], ws), r, InsertIndex(AfterRemovals(e), r, pos)))
  }

  lemma SettingsTargetValid(e: Element, rail: Path, pos: nat, ws: Path)
    requires ValidPath(e, rail) && ValidPath(e, ws) && SettingsTarget(e, rail, pos, ws).Some?
    ensures ValidPath(WithWidget(e, rail, pos), SettingsTarget(e, rail, pos, ws).value)
    ensures Get(WithWidget(e, rail, pos), SettingsTarget(e, rail, pos, ws).value).tag == Get(e, ws).tag
  {
    var gone := Removals(e);
    RemoveSetAt(e, gone, [], ws);
    if Kept(e, gone, [], rail) {
      RemoveSetAt(e, gone, [], rail);
      InsertAtShift(AfterRemovals(e), Translate(e, gone, [], rail), pos, TrendMdPlacement, Translate(e, gone, [], ws));
    }
  }

  /** The document after line 288. */
  function WithSettings(e: Element, rail: Path, pos: nat, ws: Path, id: string): Element
    requires ValidPath(e, rail) && ValidPath(e, ws)
  {
    match SettingsTarget(e, rail, pos, ws)
    case None => WithWidget(e, rail, pos)
    case Some(w) => SettingsTargetValid(e, rail, pos, ws); InsertAt(WithWidget(e, rail, pos), w, 0, TrendMdSettings(id))
  }

  /** The routine on the document it reads. It fails when there is no second
      right rail block, when that block has no SeeAlso child after the
      removals, or when there is no WidgetSettings section; missing removal
      targets never make it fail. */
  function TrendMdWidget(e: Element, id: string): (o: Outcome)
    ensures o.Raised? <==>
      var rr := FindAll(e, RightRailBlocks);
      |rr| < 2 || SeeAlsoPosition(ScannedRail(e, rr[1]).children).None? ||
      FindAll(e, WidgetSettingsBelow) == []
    ensures !o.NotWritten?
  {
    var rr := FindAll(e, RightRailBlocks);
    var ws := FindAll(e, WidgetSettingsBelow);
    if |rr| < 2 then Raised(IndexError("right_rail"))
    else
      assert rr[1] in rr;
      match SeeAlsoPosition(ScannedRail(e, rr[1]).children)
      case None => Raised(UnboundLocalError("pos"))
      case Some(pos) =>
        if |ws| == 0 then Raised(IndexError("widget_settings"))
        else
          assert ws[0] in ws;
          Written(WithSettings(e, rr[1], pos, ws[0], id))
  }

  /** The inputs of a written run: the second right rail block, the scanned
      position and the first WidgetSettings section. */
  predicate RunOf(e: Element, rail: Path, pos: nat, ws: Path) {
    var rr, all := FindAll(e, RightRailBlocks), FindAll(e, WidgetSettingsBelow);
    |rr| >= 2 && rr[1] == rail && |all| > 0 && all[0] == ws &&
    (assert rail in rr; SeeAlsoPosition(ScannedRail(e, rail).children) == Some(pos))
  }

  lemma RunOfWritten(e: Element, id: string)
    requires TrendMdWidget(e, id).Written?
    ensures var rr, all := FindAll(e, RightRailBlocks), FindAll(e, WidgetSettingsBelow);
      |rr| >= 2 && |all| > 0 &&
      (assert rr[1] in rr; SeeAlsoPosition(ScannedRail(e, rr[1]).children).Some?) &&
      RunOf(e, rr[1], SeeAlsoPosition(ScannedRail(e, rr[1]).children).value, all[0]) &&
      (assert all[0] in all; TrendMdWidget(e, id).tree ==
        WithSettings(e, rr[1], SeeAlsoPosition(ScannedRail(e, rr[1]).children).value, all[0], id))
  {
  }

  /** When the second right rail block stays in the document, the widget sits
      in it right after its last SeeAlso child, and no SeeAlso child follows. */
  lemma {:induction false} WidgetAfterLastSeeAlso(e: Element, rail: Path, pos: nat)
    requires ValidPath(e, rail) && Kept(e, Removals(e), [], rail)
    requires SeeAlsoPosition(ScannedRail(e, rail).children) == Some(pos)
    ensures var t, r := WithWidget(e, rail, pos), Translate(e, Removals(e), [], rail);
      && ValidPath(t, r)
      && |Get(t, r).children| == |ScannedRail(e, rail).children| + 1
      && Get(t, r).children[pos] == TrendMdPlacement
      && IsSeeAlso(Get(t, r).children[pos - 1])
      && forall j :: pos < j < |Get(t, r).children| ==> !IsSeeAlso(Get(t, r).children[j])
  {
    var gone := Removals(e);
    var r := Translate(e, gone, [], rail);
    RemoveSetAt(e, gone, [], rail);
    assert ScannedRail(e, rail) == RemoveSet(Get(e, rail), gone, rail);
    assert WithWidget(e, rail, pos) == InsertAt(RemoveSet(e, gone, []), r, pos, TrendMdPlacement);
    InsertAfterLastSeeAlso(e, gone, rail, pos);
  }

  /** WidgetAfterLastSeeAlso for any set of removed nodes. */
  lemma InsertAfterLastSeeAlso(e: Element, gone: set<Path>, rail: Path, pos: nat)
    requires ValidPath(e, rail) && Kept(e, gone, [], rail)
    requires SeeAlsoPosition(RemoveSet(Get(e, rail), gone, rail).children) == Some(pos)
    ensures ValidPath(RemoveSet(e, gone, []), Translate(e, gone, [], rail))
    ensures var r := Translate(e, gone, [], rail);
      var t := InsertAt(RemoveSet(e, gone, []), r, pos, TrendMdPlacement);
      && ValidPath(t, r)
      && |Get(t, r).children| == |RemoveSet(Get(e, rail), gone, rail).children| + 1
      && Get(t, r).children[pos] == TrendMdPlacement
      && IsSeeAlso(Get(t, r).children[pos - 1])
      && forall j :: pos < j < |Get(t, r).children| ==> !IsSeeAlso(Get(t, r).children[j])
  {
    RemoveSetAt(e, gone, [], rail);
    assert [] + rail == rail;
    var r := Translate(e, gone, [], rail);
    InsertAtTarget(RemoveSet(e, gone, []), r, pos, TrendMdPlacement);
  }

  /** The settings element is the first child of the first WidgetSettings
      section when that section stays in the document. */
  lemma SettingsFirst(e: Element, rail: Path, pos: nat, ws: Path, id: string)
    requires ValidPath(e, rail) && ValidPath(e, ws) && SettingsTarget(e, rail, pos, ws).Some?
    ensures var t, w := WithSettings(e, rail, pos, ws, id), SettingsTarget(e, rail, pos, ws).value;
      ValidPath(t, w) && Get(t, w).tag == Get(e, ws).tag &&
      |Get(t, w).children| > 0 && Get(t, w).children[0] == TrendMdSettings(id)
  {
    SettingsTargetValid(e, rail, pos, ws);
    InsertAtTarget(WithWidget(e, rail, pos), SettingsTarget(e, rail, pos, ws).value, 0, TrendMdSettings(id));
  }

  /** A path that starts with the path of a leaf is that path. */
  lemma LeafPrefix(m: Element, a: Path, w: Path)
    requires ValidPath(m, a) && ValidPath(m, w) && IsPrefix(a, w) && |Get(m, a).children| == 0
    ensures w == a
  {
    assert w == a + w[|a|..];
    GetAppend(m, a, w[|a|..]);
  }

  /** Inserting under `w` leaves a leaf elsewhere with another tag where it was, shifted. */
  lemma InsertKeepsLeaf(m: Element, a: Path, w: Path, x: Element)
    requires ValidPath(m, a) && ValidPath(m, w) && |Get(m, a).children| == 0 && Get(m, a).tag != Get(m, w).tag
    ensures ValidPath(InsertAt(m, w, 0, x), Shift(a, w, InsertIndex(m, w, 0)))
    ensures Get(InsertAt(m, w, 0, x), Shift(a, w, InsertIndex(m, w, 0))) == Get(m, a)
  {
    if IsPrefix(a, w) {
      LeafPrefix(m, a, w);
    }
    InsertAtShift(m, w, 0, x, a);
  }

  /** The widget is still in place after the settings are inserted. */
  lemma WidgetSurvivesSettings(e: Element, rail: Path, pos: nat, ws: Path, id: string)
    requires ValidPath(e, rail) && ValidPath(e, ws) && Get(e, ws).tag == "WidgetSettings"
    requires Kept(e, Removals(e), [], rail) && SettingsTarget(e, rail, pos, ws).Some?
    requires SeeAlsoPosition(ScannedRail(e, rail).children) == Some(pos)
    ensures var r, w := Translate(e, Removals(e), [], rail), SettingsTarget(e, rail, pos, ws).value;
      var t := WithSettings(e, rail, pos, ws, id);
      ValidPath(t, Shift(r + [pos], w, 0)) && Get(t, Shift(r + [pos], w, 0)) == TrendMdPlacement
  {
    var r, w := Translate(e, Removals(e), [], rail), SettingsTarget(e, rail, pos, ws).value;
    var m := WithWidget(e, rail, pos);
    WidgetAfterLastSeeAlso(e, rail, pos);
    SettingsTargetValid(e, rail, pos, ws);
    GetAppend(m, r, [pos]);
    assert Get(m, r + [pos]) == TrendMdPlacement;
    assert InsertIndex(m, w, 0) == 0;
    InsertKeepsLeaf(m, r + [pos], w, TrendMdSettings(id));
  }

  /** After line 287 every node is the new widget or a kept original node. */
  lemma WithWidgetCovers(e: Element, rail: Path, pos: nat, q: Path)
    requires ValidPath(e, rail) && ValidPath(WithWidget(e, rail, pos), q)
    ensures var n := Get(WithWidget(e, rail, pos), q);
      n == TrendMdPlacement || FromKept(e, LabelOf(n))
  {
    var gone := Removals(e);
    if Kept(e, gone, [], rail) {
      RemoveSetAt(e, gone, [], rail);
      var a, r := AfterRemovals(e), Translate(e, gone, [], rail);
      assert WithWidget(e, rail, pos) == InsertAt(a, r, pos, TrendMdPlacement);
      InsertOrigin(a, r, pos, TrendMdPlacement, q);
      var k := InsertIndex(a, r, pos);
      if !Inside(q, r, k) {
        AfterRemovalsCovers(e, Unshift(q, r, k));
      }
    } else {
      AfterRemovalsCovers(e, q);
    }
  }

  /** After line 288 every node is part of the new settings, the new widget or
      a kept original node. */
  lemma WithSettingsCovers(e: Element, rail: Path, pos: nat, ws: Path, id: string, q: Path)
    requires ValidPath(e, rail) && ValidPath(e, ws) && Get(e, ws).tag == "WidgetSettings"
    requires ValidPath(WithSettings(e, rail, pos, ws, id), q)
    ensures var n := Get(WithSettings(e, rail, pos, ws, id), q);
      || (exists r :: ValidPath(TrendMdSettings(id), r) && n == Get(TrendMdSettings(id), r))
      || n == TrendMdPlacement
      || FromKept(e, LabelOf(n))
  {
    match SettingsTarget(e, rail, pos, ws)
    case None =>
      WithWidgetCovers(e, rail, pos, q);
    case Some(w) =>
      SettingsTargetValid(e, rail, pos, ws);
      assert WithSettings(e, rail, pos, ws, id) == InsertAt(WithWidget(e, rail, pos), w, 0, TrendMdSettings(id));
      SettingsInsertCovers(e, rail, pos, w, id, q);
  }

  /** The settings insert of line 288, at any WidgetSettings node of the
      document after line 287. */
  lemma SettingsInsertCovers(e: Element, rail: Path, pos: nat, w: Path, id: string, q: Path)
    requires ValidPath(e, rail)
    requires ValidPath(WithWidget(e, rail, pos), w) && Get(WithWidget(e, rail, pos), w).tag == "WidgetSettings"
    requires ValidPath(InsertAt(WithWidget(e, rail, pos), w, 0, TrendMdSettings(id)), q)
    ensures var n := Get(InsertAt(WithWidget(e, rail, pos), w, 0, TrendMdSettings(id)), q);
      || (exists r :: ValidPath(TrendMdSettings(id), r) && n == Get(TrendMdSettings(id), r))
      || n == TrendMdPlacement
      || FromKept(e, LabelOf(n))
  {
    var m, x := WithWidget(e, rail, pos), TrendMdSettings(id);
    SettingsInsertOrigin(m, w, x, q);
    var k := InsertIndex(m, w, 0);
    if !Inside(q, w, k) {
      WithWidgetCovers(e, rail, pos, Unshift(q, w, k));
    }
  }

  /** A node after inserting `x` under a WidgetSettings node is a node of `x`,
      or an old node with the same label; an old TrendMD widget stays whole. */
  lemma SettingsInsertOrigin(m: Element, w: Path, x: Element, q: Path)
    requires ValidPath(m, w) && Get(m, w).tag == "WidgetSettings" && ValidPath(InsertAt(m, w, 0, x), q)
    ensures var t, k := InsertAt(m, w, 0, x), InsertIndex(m, w, 0);
      if Inside(q, w, k) then
        exists r :: ValidPath(x, r) && Get(t, q) == Get(x, r)
      else
        && ValidPath(m, Unshift(q, w, k))
        && LabelOf(Get(t, q)) == LabelOf(Get(m, Unshift(q, w, k)))
        && (Get(m, Unshift(q, w, k)) == TrendMdPlacement ==> Get(t, q) == TrendMdPlacement)
  {
    InsertOrigin(m, w, 0, x, q);
    var k := InsertIndex(m, w, 0);
    if Inside(q, w, k) {
      var r := q[|w| + 1..];
      assert ValidPath(x, r);
    } else {
      var q' := Unshift(q, w, k);
      if Get(m, q') == TrendMdPlacement {
        InsertKeepsLeaf(m, q', w, x);
        InsertAtUnshift(m, w, 0, x, q);
      }
    }
  }

  /** The written document holds nothing but kept original nodes, the new
      widget and the nodes of the new settings element; the removed nodes
      are not kept (RemovedNotKept). */
  lemma TrendMdWidgetCovers(e: Element, id: string, q: Path)
    requires TrendMdWidget(e, id).Written? && ValidPath(TrendMdWidget(e, id).tree, q)
    ensures var n := Get(TrendMdWidget(e, id).tree, q);
      || (exists r :: ValidPath(TrendMdSettings(id), r) && n == Get(TrendMdSettings(id), r))
      || n == TrendMdPlacement
      || FromKept(e, LabelOf(n))
  {
    RunOfWritten(e, id);
    var rr, all := FindAll(e, RightRailBlocks), FindAll(e, WidgetSettingsBelow);
    assert rr[1] in rr && all[0] in all;
    var pos := SeeAlsoPosition(ScannedRail(e, rr[1]).children).value;
    WithSettingsCovers(e, rr[1], pos, all[0], id, q);
  }

  /** Where an original node that the removals keep is after line 287. */
  function WidgetMoved(e: Element, rail: Path, pos: nat, p: Path): Path
    requires ValidPath(e, rail) && ValidPath(e, p)
  {
    var gone := Removals(e);
    if Kept(e, gone, [], rail) then
      RemoveSetAt(e, gone, [], rail);
      var r := Translate(e, gone, [], rail);
      Shift(Translate(e, gone, [], p), r, InsertIndex(AfterRemovals(e), r, pos))
    else Translate(e, gone, [], p)
  }

  /** Where an original node that the removals keep is after line 288. */
  function SettingsMoved(e: Element, rail: Path, pos: nat, ws: Path, p: Path): Path
    requires ValidPath(e, rail) && ValidPath(e, ws) && ValidPath(e, p)
  {
    match SettingsTarget(e, rail, pos, ws)
    case None => WidgetMoved(e, rail, pos, p)
    case Some(w) => Shift(WidgetMoved(e, rail, pos, p), w, 0)
  }

  /** Every kept original node is still in the document after line 287, at
      its translated and shifted path, with its label. */
  lemma WithWidgetKeepsNodes(e: Element, rail: Path, pos: nat, p: Path)
    requires ValidPath(e, rail) && ValidPath(e, p) && Kept(e, Removals(e), [], p)
    ensures ValidPath(WithWidget(e, rail, pos), WidgetMoved(e, rail, pos, p))
    ensures LabelOf(Get(WithWidget(e, rail, pos), WidgetMoved(e, rail, pos, p))) == LabelOf(Get(e, p))
  {
    var gone := Removals(e);
    RemoveSetAt(e, gone, [], p);
    var t := Translate(e, gone, [], p);
    assert LabelOf(Get(AfterRemovals(e), t)) == LabelOf(Get(e, p));
    if Kept(e, gone, [], rail) {
      RemoveSetAt(e, gone, [], rail);
      InsertAtShift(AfterRemovals(e), Translate(e, gone, [], rail), pos, TrendMdPlacement, t);
    }
  }

  /** Every kept original node is still in the document after line 288. */
  lemma WithSettingsKeepsNodes(e: Element, rail: Path, pos: nat, ws: Path, id: string, p: Path)
    requires ValidPath(e, rail) && ValidPath(e, ws) && ValidPath(e, p) && Kept(e, Removals(e), [], p)
    ensures ValidPath(WithSettings(e, rail, pos, ws, id), SettingsMoved(e, rail, pos, ws, p))
    ensures LabelOf(Get(WithSettings(e, rail, pos, ws, id), SettingsMoved(e, rail, pos, ws, p))) == LabelOf(Get(e, p))
  {
    WithWidgetKeepsNodes(e, rail, pos, p);
    match SettingsTarget(e, rail, pos, ws)
    case None =>
    case Some(w) =>
      SettingsTargetValid(e, rail, pos, ws);
      var m := WithWidget(e, rail, pos);
      assert WithSettings(e, rail, pos, ws, id) == InsertAt(m, w, 0, TrendMdSettings(id));
      assert InsertIndex(m, w, 0) == 0;
      InsertAtShift(m, w, 0, TrendMdSettings(id), WidgetMoved(e, rail, pos, p));
  }

  /** The routine loses only what it removes: every original node that is not
      a removed node or inside one is in the written document, at its
      translated and shifted path, with its label. */
  lemma TrendMdWidgetKeepsNodes(e: Element, id: string, p: Path)
    requires TrendMdWidget(e, id).Written? && ValidPath(e, p) && Kept(e, Removals(e), [], p)
    ensures var rr, all := FindAll(e, RightRailBlocks), FindAll(e, WidgetSettingsBelow);
      && |rr| >= 2 && |all| > 0
      && (assert rr[1] in rr && all[0] in all;
          && SeeAlsoPosition(ScannedRail(e, rr[1]).children).Some?
          && var t, q := TrendMdWidget(e, id).tree, SettingsMoved(e, rr[1], SeeAlsoPosition(ScannedRail(e, rr[1]).children).value, all[0], p);
             ValidPath(t, q) && LabelOf(Get(t, q)) == LabelOf(Get(e, p)))
  {
    RunOfWritten(e, id);
    var rr, all := FindAll(e, RightRailBlocks), FindAll(e, WidgetSettingsBelow);
    assert rr[1] in rr && all[0] in all;
    var pos := SeeAlsoPosition(ScannedRail(e, rr[1]).children).value;
    WithSettingsKeepsNodes(e, rr[1], pos, all[0], id, p);
  }
}
