/** The `ModifyFile` routines on a parsed document: each one finds nodes, edits
    the tree in place and reports what would be written to the new file. */
module ModifyFile {
  import opened Wrappers
  import opened XmlTree
  import opened TreeEdits
  import opened Text
  import opened Outcomes
  import Scaffold
  import AclRequests
  import Widgets
  import TrendMd
  import CurrentEntries

  // ---------------------------------------------------------------------
  // source selection

  const MicrosPerSecond := 1_000_000
  const SecondsPerDay := 86_400
  /** A new file younger than this many seconds is read instead of the original. */
  const FreshSeconds := 60

  /** `timedelta.seconds` of the time since the last modification, given in
      microseconds (negative when the modification time lies in the future):
      whole seconds, reduced modulo a day, the days part being dropped. */
  function SecondsField(elapsedMicros: int): (s: nat)
    ensures s < SecondsPerDay
    ensures 0 <= elapsedMicros < SecondsPerDay * MicrosPerSecond ==> s == elapsedMicros / MicrosPerSecond
  {
    (elapsedMicros / MicrosPerSecond) % SecondsPerDay
  }

  /** `update_from_original_or_new` as written: the new file when it exists and
      the seconds field of its age is under a minute. */
  function SelectSourceAsWritten(originalPath: string, newPath: string, newExists: bool, elapsedMicros: int): (path: string)
    ensures path == originalPath || path == newPath
    ensures !newExists ==> path == originalPath
  {
    if newExists && SecondsField(elapsedMicros) < FreshSeconds then newPath else originalPath
  }

  /** The evident intent: the new file when it exists and was written less than
      a minute ago (`total_seconds()`, which keeps the days). */
  function SelectSource(originalPath: string, newPath: string, newExists: bool, elapsedMicros: int): (path: string)
    ensures path == originalPath || path == newPath
    ensures !newExists ==> path == originalPath
  {
    if newExists && elapsedMicros < FreshSeconds * MicrosPerSecond then newPath else originalPath
  }

  /** Both readings agree on every file written within the last day. */
  lemma SelectSourceAgreesWithinADay(originalPath: string, newPath: string, newExists: bool, elapsedMicros: int)
    requires 0 <= elapsedMicros < SecondsPerDay * MicrosPerSecond
    ensures SelectSourceAsWritten(originalPath, newPath, newExists, elapsedMicros) == SelectSource(originalPath, newPath, newExists, elapsedMicros)
  {
  }

  /** A file new enough to be read stays so at every earlier moment. */
  lemma SelectSourceMonotone(originalPath: string, newPath: string, earlier: int, later: int)
    requires originalPath != newPath && earlier <= later
    requires SelectSource(originalPath, newPath, true, later) == newPath
    ensures SelectSource(originalPath, newPath, true, earlier) == newPath
  {
  }

  /** As written, a new file one day and five seconds old counts as fresh,
      although the same file a hundred seconds old does not. */
  lemma StaleNewFileSelected(originalPath: string, newPath: string)
    requires originalPath != newPath
    ensures SelectSourceAsWritten(originalPath, newPath, true, (SecondsPerDay + 5) * MicrosPerSecond) == newPath
    ensures SelectSourceAsWritten(originalPath, newPath, true, 100 * MicrosPerSecond) == originalPath
    ensures SelectSource(originalPath, newPath, true, (SecondsPerDay + 5) * MicrosPerSecond) == originalPath
  {
  }

  // ---------------------------------------------------------------------
  // demotion state

  /** `e` is `e0` with the demotion loop's body applied to the entries in `done`. */
  ghost predicate DemotedAlong(e0: Element, e: Element, tag: string, year: int, done: seq<Path>) {
    && (forall q :: ValidPath(e, q) <==> ValidPath(e0, q))
    && (forall q | ValidPath(e0, q) :: ValidPath(e, q) &&
          LabelOf(Get(e, q)) ==
            if q in done then CurrentEntries.DemoteLabel(LabelOf(Get(e0, q)), tag, year) else LabelOf(Get(e0, q)))
  }

  /** Entry `k` of the current entries is the first one without a `year`. */
  ghost predicate HaltsAt(e0: Element, tag: string, k: int) {
    var cur := FindAll(e0, CurrentEntries.CurrentEntriesOf(tag));
    && 0 <= k < |cur| && ValidPath(e0, cur[k]) && "year" !in Get(e0, cur[k]).attrs
    && (forall j :: 0 <= j < k ==> ValidPath(e0, cur[j]) && "year" in Get(e0, cur[j]).attrs)
  }

  /** The loop stopped at the first entry without a `year`, after demoting the
      entries before it. */
  ghost predicate Halted(e0: Element, e: Element, tag: string, year: int) {
    exists k :: HaltsAt(e0, tag, k) && DemotedAlong(e0, e, tag, year, FindAll(e0, CurrentEntries.CurrentEntriesOf(tag))[..k])
  }

  /** There is only one first entry without a `year`. */
  lemma HaltsAtUnique(e0: Element, tag: string, k1: int, k2: int)
    requires HaltsAt(e0, tag, k1) && HaltsAt(e0, tag, k2)
    ensures k1 == k2
  {
  }

  /** Demoting the same entries gives the same labels. */
  lemma DemotedAlongUnique(e0: Element, e1: Element, e2: Element, tag: string, year: int, done: seq<Path>)
    requires DemotedAlong(e0, e1, tag, year, done) && DemotedAlong(e0, e2, tag, year, done)
    ensures forall q :: ValidPath(e1, q) <==> ValidPath(e2, q)
    ensures forall q | ValidPath(e1, q) :: ValidPath(e2, q) && LabelOf(Get(e1, q)) == LabelOf(Get(e2, q))
  {
  }

  /** The halted state is determined by the document: two runs that halt
      agree on every node's label. */
  lemma HaltedUnique(e0: Element, e1: Element, e2: Element, tag: string, year: int)
    requires Halted(e0, e1, tag, year) && Halted(e0, e2, tag, year)
    ensures forall q :: ValidPath(e1, q) <==> ValidPath(e2, q)
    ensures forall q | ValidPath(e1, q) :: ValidPath(e2, q) && LabelOf(Get(e1, q)) == LabelOf(Get(e2, q))
  {
    var cur := FindAll(e0, CurrentEntries.CurrentEntriesOf(tag));
    var k1 :| HaltsAt(e0, tag, k1) && DemotedAlong(e0, e1, tag, year, cur[..k1]);
    var k2 :| HaltsAt(e0, tag, k2) && DemotedAlong(e0, e2, tag, year, cur[..k2]);
    HaltsAtUnique(e0, tag, k1, k2);
    DemotedAlongUnique(e0, e1, e2, tag, year, cur[..k1]);
  }

  /** A parsed document; its methods are the routines, which edit it in place. */
  class Document {
    var root: Element

    constructor(root: Element)
      ensures this.root == root
    {
      this.root := root;
    }

    /** `parent.insert(i, x)` on the node at `p`. */
    method Insert(p: Path, i: nat, x: Element)
      requires ValidPath(root, p)
      modifies this
      ensures ValidPath(root, p) && Get(root, p).children == InsertChild(Get(old(root), p).children, i, x)
      ensures root == InsertAt(old(root), p, i, x)
    {
      InsertAtTarget(root, p, i, x);
      root := InsertAt(root, p, i, x);
    }

    /** `node.attrib[key] = value` on the node at `p`. */
    method SetAttribute(p: Path, key: string, value: string)
      requires ValidPath(root, p)
      modifies this
      ensures root == SetAttr(old(root), p, key, value)
    {
      root := SetAttr(root, p, key, value);
    }

    /** The demotion loop: every current `tag` entry below the root whose year
        is not `year` gets `current='false'`. Reading a missing `year` raises
        KeyError and leaves the entries before it demoted. */
    method DemoteStale(tag: string, year: int) returns (ok: bool)
      modifies this
      ensures ok <==> CurrentEntries.YearsPresent(old(root), tag)
      ensures ok ==> root == CurrentEntries.DemoteBelow(old(root), tag, year)
      ensures !ok ==> Halted(old(root), root, tag, year)
    {
      var cur := FindAll(root, CurrentEntries.CurrentEntriesOf(tag));
      ghost var e0 := root;
      var i := 0;
      while i < |cur|
        invariant 0 <= i <= |cur|
        invariant forall j :: 0 <= j < i ==> ValidPath(e0, cur[j]) && "year" in Get(e0, cur[j]).attrs
        invariant DemotedAlong(e0, root, tag, year, cur[..i])
      {
        var p := cur[i];
        assert p in cur;
        assert cur[..i + 1] == cur[..i] + [p];
        YearAlong(e0, root, tag, year, cur[..i], p);
        if "year" !in Get(root, p).attrs {
          HaltedHere(e0, root, tag, year, i);
          ok := false;
          return;
        }
        if Get(root, p).attrs["year"] != IntToString(year) {
          StepDemotes(e0, root, tag, year, cur[..i], p);
          SetAttribute(p, "current", "false");
        } else {
          StepKeeps(e0, root, tag, year, cur[..i], p);
        }
        i := i + 1;
      }
      assert cur[..|cur|] == cur;
      forall p | p in cur ensures "year" in Get(e0, p).attrs {
        var j :| 0 <= j < |cur| && cur[j] == p;
      }
      ok := true;
      AllDemoted(e0, root, tag, year);
    }

    /** `add_top_level_widget_xml`. */
    method AddTopLevelWidget() returns (o: Outcome)
      modifies this
      ensures o == Scaffold.AddTopLevelWidget(old(root))
      ensures o.Written? ==> root == o.tree
      ensures !o.Written? ==> root == old(root)
    {
      var blocks := FindFirst(root, Scaffold.MainContentBlocks);
      var homePages := FindFirst(root, Scaffold.HomePages);
      var pageSettings := FindFirst(root, Scaffold.PageSettingsSections);
      var siteTemplates := FindFirst(root, Scaffold.SiteTemplates);
      if pageSettings.None? {
        if siteTemplates.None? {
          return Raised(IndexError("site_template"));
        }
        var t := siteTemplates.value;
        if |t| == 0 {
          return Raised(AttributeError("the root element has no parent"));
        }
        ParentValid(root, t);
        Insert(Parent(t), t[|t| - 1] + 1, Scaffold.PageSettingsSection);
        o := Written(root);
      } else if homePages.None? {
        Insert(pageSettings.value, 0, Scaffold.HomePage);
        o := Written(root);
      } else if blocks.None? {
        Insert(homePages.value, 0, Scaffold.MainContentLocation);
        o := Written(root);
      } else {
        o := NotWritten;
      }
    }

    /** The body of the `modify_xml` loop for one spreadsheet row. A failure
        at the settings step leaves the placement inserted. */
    method ModifyRow(d: Widgets.Record, site: string) returns (o: Outcome)
      modifies this
      ensures o == AclRequests.ProcessRow(old(root), d, site)
      ensures o.Written? ==> root == o.tree
      ensures !AclRequests.ReadRow(d, site).Ok? || AclRequests.ReadRow(d, site).value.None? ==> root == old(root)
      ensures o.Raised? && AclRequests.ReadRow(d, site).Ok? && AclRequests.ReadRow(d, site).value.Some? ==>
        var req := AclRequests.ReadRow(d, site).value.value;
        root == AclRequests.WithPlacement(old(root), Widgets.ChooseWidget(req.settings, req.instanceName))
    {
      var row := AclRequests.ReadRow(d, site);
      if row.Failure? {
        return Raised(row.error);
      }
      if row.value.None? {
        return NotWritten;
      }
      var req := row.value.value;
      var w := Widgets.ChooseWidget(req.settings, req.instanceName);
      var e0 := root;
      var block := FindFirst(root, Scaffold.MainContentBlocks);
      var settings := FindFirst(root, AclRequests.WidgetSettingsSections);
      if block.Some? {
        Insert(block.value, 0, w.placement);
      }
      if settings.None? {
        return Raised(IndexError("settings"));
      }
      AclRequests.SettingsTargetValid(e0, w);
      Insert(AclRequests.SettingsTarget(e0), 0, w.settings);
      o := Written(root);
    }

    /** `trendmd_widget`. The three removals are applied together. A failure
        leaves the removals, and the widget if it was inserted, in place. */
    method TrendMdWidget(id: string) returns (o: Outcome)
      modifies this
      ensures o == TrendMd.TrendMdWidget(old(root), id)
      ensures o.Written? ==> root == o.tree
      ensures var rr := FindAll(old(root), TrendMd.RightRailBlocks);
        o.Raised? ==>
          if |rr| >= 2 && (assert rr[1] in rr; TrendMd.SeeAlsoPosition(TrendMd.ScannedRail(old(root), rr[1]).children).Some?) then
            root == TrendMd.WithWidget(old(root), rr[1], TrendMd.SeeAlsoPosition(TrendMd.ScannedRail(old(root), rr[1]).children).value)
          else root == TrendMd.AfterRemovals(old(root))
    {
      var e0 := root;
      var rr := FindAll(root, TrendMd.RightRailBlocks);
      var ws := FindAll(root, TrendMd.WidgetSettingsBelow);
      var gone := TrendMd.Removals(root);
      root := RemoveSet(root, gone, []);
      if |rr| < 2 {
        return Raised(IndexError("right_rail"));
      }
      var rail := rr[1];
      assert rail in rr;
      var pos := TrendMd.ScanRightRail(TrendMd.ScannedRail(e0, rail).children);
      if pos.None? {
        return Raised(UnboundLocalError("pos"));
      }
      if Kept(e0, gone, [], rail) {
        RemoveSetAt(e0, gone, [], rail);
        Insert(Translate(e0, gone, [], rail), pos.value, TrendMd.TrendMdPlacement);
      }
      if |ws| == 0 {
        return Raised(IndexError("widget_settings"));
      }
      assert ws[0] in ws;
      var target := TrendMd.SettingsTarget(e0, rail, pos.value, ws[0]);
      if target.Some? {
        TrendMd.SettingsTargetValid(e0, rail, pos.value, ws[0]);
        Insert(target.value, 0, TrendMd.TrendMdSettings(id));
      }
      o := Written(root);
    }

    /** `update_current_years_ranking` on the tree the parse produced. */
    method UpdateRanking(name: string, rank: string, year: int) returns (o: Outcome)
      modifies this
      ensures o == CurrentEntries.UpdateRanking(old(root), name, rank, year)
      ensures o.Written? ==> root == o.tree
      ensures o.Raised? ==> Halted(old(root), root, "rank", year)
    {
      var e0 := root;
      var named := FindFirst(root, CurrentEntries.NamedEntries(name));
      var ok := DemoteStale("rank", year);
      if !ok {
        return Raised(KeyError("year"));
      }
      CurrentEntries.DemoteBelowAt(e0, "rank", year, CurrentEntries.RankAnchor(e0, name));
      if named.None? {
        Insert([], 0, CurrentEntries.NewCategory(name, rank, year));
      } else {
        ParentValid(e0, named.value);
        Insert(Parent(named.value), 1, CurrentEntries.NewRank(rank, year));
      }
      o := Written(root);
    }

    /** `update_current_years_if`, the two values already formatted. The
        missing container is found only after the demotion. */
    method UpdateImpactFactor(oneYear: string, fiveYear: string, year: int) returns (o: Outcome)
      modifies this
      ensures o == CurrentEntries.UpdateImpactFactor(old(root), oneYear, fiveYear, year)
      ensures o.Written? ==> root == o.tree
      ensures !CurrentEntries.YearsPresent(old(root), "ImpactFactor") ==> Halted(old(root), root, "ImpactFactor", year)
      ensures o.Raised? && CurrentEntries.YearsPresent(old(root), "ImpactFactor") ==>
        root == CurrentEntries.DemoteBelow(old(root), "ImpactFactor", year)
    {
      var e0 := root;
      var current := FindAll(root, CurrentEntries.CurrentEntriesOf("ImpactFactor"));
      var sections := FindFirst(root, CurrentEntries.ImpactFactorSections);
      var ok := DemoteStale("ImpactFactor", year);
      if !ok {
        return Raised(KeyError("year"));
      }
      var at: Path;
      if |current| > 0 {
        assert current[0] in current;
        ParentValid(e0, current[0]);
        at := Parent(current[0]);
      } else if sections.None? {
        return Raised(IndexError("impact_factors"));
      } else {
        at := sections.value;
      }
      CurrentEntries.DemoteBelowAt(e0, "ImpactFactor", year, at);
      Insert(at, 0, CurrentEntries.NewImpactFactor(oneYear, fiveYear, year));
      o := Written(root);
    }
  }

  /** The rankings file as the parser sees it: its tree, or None when its
      text is not well-formed XML. */
  class RankingsFile {
    var parsed: Option<Element>

    constructor(parsed: Option<Element>)
      ensures this.parsed == parsed
    {
      this.parsed := parsed;
    }

    /** The `while error_xml` loop of the ranking update: a file that does not
        parse is overwritten with the skeleton document and parsed again. */
    method Load() returns (e: Element)
      modifies this
      ensures e == CurrentEntries.RankingsDocument(old(parsed))
      ensures parsed == Some(e)
    {
      while parsed.None?
        invariant parsed.None? ==> parsed == old(parsed)
        invariant parsed.Some? ==> parsed.value == CurrentEntries.RankingsDocument(old(parsed))
        decreases if parsed.None? then 1 else 0
      {
        parsed := Some(CurrentEntries.RankingsSkeleton);
      }
      e := parsed.value;
    }
  }

  /** A KeyError at entry `k`. */
  lemma HaltedHere(e0: Element, e: Element, tag: string, year: int, k: nat)
    requires var cur := FindAll(e0, CurrentEntries.CurrentEntriesOf(tag));
      HaltsAt(e0, tag, k) && DemotedAlong(e0, e, tag, year, cur[..k])
    ensures Halted(e0, e, tag, year)
  {
  }

  /** The demotion loop never adds or removes a `year`. */
  lemma YearAlong(e0: Element, e: Element, tag: string, year: int, done: seq<Path>, p: Path)
    requires DemotedAlong(e0, e, tag, year, done) && ValidPath(e0, p)
    ensures ValidPath(e, p) && ("year" in Get(e, p).attrs <==> "year" in Get(e0, p).attrs)
  {
    assert LabelOf(Get(e, p)).attrs == Get(e, p).attrs;
  }

  lemma StepDemotes(e0: Element, e: Element, tag: string, year: int, done: seq<Path>, p: Path)
    requires DemotedAlong(e0, e, tag, year, done) && ValidPath(e0, p)
    requires MatchesAt(e0, p, CurrentEntries.CurrentEntriesOf(tag))
    requires "year" in Get(e, p).attrs && Get(e, p).attrs["year"] != IntToString(year)
    ensures ValidPath(e, p)
    ensures DemotedAlong(e0, SetAttr(e, p, "current", "false"), tag, year, done + [p])
  {
    var n := SetAttr(e, p, "current", "false");
    forall q ensures ValidPath(n, q) <==> ValidPath(e0, q) {
      SetAttrAt(e, p, "current", "false", q);
    }
    forall q | ValidPath(e0, q)
      ensures ValidPath(n, q) &&
        LabelOf(Get(n, q)) ==
          if q in done + [p] then CurrentEntries.DemoteLabel(LabelOf(Get(e0, q)), tag, year) else LabelOf(Get(e0, q))
    {
      SetAttrAt(e, p, "current", "false", q);
    }
  }

  lemma StepKeeps(e0: Element, e: Element, tag: string, year: int, done: seq<Path>, p: Path)
    requires DemotedAlong(e0, e, tag, year, done) && ValidPath(e0, p)
    requires MatchesAt(e0, p, CurrentEntries.CurrentEntriesOf(tag))
    requires "year" in Get(e, p).attrs && Get(e, p).attrs["year"] == IntToString(year)
    ensures DemotedAlong(e0, e, tag, year, done + [p])
  {
    forall q | ValidPath(e0, q)
      ensures ValidPath(e, q) &&
        LabelOf(Get(e, q)) ==
          if q in done + [p] then CurrentEntries.DemoteLabel(LabelOf(Get(e0, q)), tag, year) else LabelOf(Get(e0, q))
    {
    }
  }

  /** After every entry `.//` finds has been visited, the document is the
      demoted one. */
  lemma AllDemoted(e0: Element, e: Element, tag: string, year: int)
    requires DemotedAlong(e0, e, tag, year, FindAll(e0, CurrentEntries.CurrentEntriesOf(tag)))
    ensures e == CurrentEntries.DemoteBelow(e0, tag, year)
  {
    var d := CurrentEntries.DemoteBelow(e0, tag, year);
    forall q ensures ValidPath(e, q) <==> ValidPath(d, q) {
      CurrentEntries.DemoteBelowAt(e0, tag, year, q);
    }
    forall q | ValidPath(e, q) && ValidPath(d, q) ensures LabelOf(Get(e, q)) == LabelOf(Get(d, q)) {
      CurrentEntries.DemoteBelowAt(e0, tag, year, q);
    }
    Extensionality(e, d);
  }
}
