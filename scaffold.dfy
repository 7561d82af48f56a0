/** `add_top_level_widget_xml`: make sure the document has a page settings
    section with a Home page whose MainContent location holds a block, the
    place ACL widgets are put in. */
module Scaffold {
  import opened Wrappers
  import opened XmlTree
  import opened TreeEdits
  import opened Outcomes

  /** `//Location[@name="MainContent"]/Block` */
  const MainContentBlocks := Query(Some(Step(Some("Location"), AttrIs("name", "MainContent"))), Step(Some("Block"), NoCond), true)
  /** `//Page[@name="Home"]` */
  const HomePages := Query(None, Step(Some("Page"), AttrIs("name", "Home")), true)
  /** `//PageSettings` */
  const PageSettingsSections := Query(None, Step(Some("PageSettings"), NoCond), true)
  /** `//SiteTemplateSettings` */
  const SiteTemplates := Query(None, Step(Some("SiteTemplateSettings"), NoCond), true)

  const MainContentLocation := Element("Location", map["name" := "MainContent"], None, [Leaf("Block", map[])])
  const HomePage := Element("Page", map["name" := "Home"], None, [MainContentLocation])
  const PageSettingsSection := Element("PageSettings", map[], None, [HomePage])

  predicate Has(e: Element, q: Query) {
    FindFirst(e, q).Some?
  }

  /** The routine on the document it reads. The first missing level decides
      what is added. No file is written exactly when nothing is missing, and
      the routine fails only when it must add page settings and there is no
      site template section with a parent to put them next to. */
  function AddTopLevelWidget(e: Element): (o: Outcome)
    ensures o.NotWritten? <==> Complete(e)
    ensures o.Raised? <==>
      !Has(e, PageSettingsSections) && (!Has(e, SiteTemplates) || FindFirst(e, SiteTemplates).value == [])
  {
    if !Has(e, PageSettingsSections) then
      match FindFirst(e, SiteTemplates)
      case None => Raised(IndexError("site_template"))
      case Some(t) =>
        if |t| == 0 then Raised(AttributeError("the root element has no parent"))
        else ParentValid(e, t); Written(InsertAt(e, Parent(t), t[|t| - 1] + 1, PageSettingsSection))
    else if !Has(e, HomePages) then
      Written(InsertAt(e, FindFirst(e, PageSettingsSections).value, 0, HomePage))
    else if !Has(e, MainContentBlocks) then
      Written(InsertAt(e, FindFirst(e, HomePages).value, 0, MainContentLocation))
    else
      NotWritten
  }

  predicate Complete(t: Element) {
    Has(t, PageSettingsSections) && Has(t, HomePages) && Has(t, MainContentBlocks)
  }

  lemma Witness(t: Element, q: Query, p: Path)
    requires ValidPath(t, p) && MatchesAt(t, p, q)
    ensures Has(t, q)
  {
  }

  lemma LocationHasBlock()
    ensures ValidPath(MainContentLocation, [0])
    ensures MatchesAt(MainContentLocation, [0], MainContentBlocks.(withRoot := true))
  {
    assert Parent([0]) == [];
  }

  lemma HomePageHasBlock()
    ensures ValidPath(HomePage, [0, 0])
    ensures MatchesAt(HomePage, [0, 0], MainContentBlocks.(withRoot := true))
    ensures MatchesAt(HomePage, [], HomePages.(withRoot := true))
  {
    assert Parent([0, 0]) == [0];
  }

  lemma SectionHasAll()
    ensures ValidPath(PageSettingsSection, [0, 0, 0]) && ValidPath(PageSettingsSection, [0])
    ensures MatchesAt(PageSettingsSection, [0, 0, 0], MainContentBlocks.(withRoot := true))
    ensures MatchesAt(PageSettingsSection, [0], HomePages.(withRoot := true))
    ensures MatchesAt(PageSettingsSection, [], PageSettingsSections.(withRoot := true))
  {
    assert Parent([0, 0, 0]) == [0, 0];
    assert Get(PageSettingsSection, [0, 0]) == MainContentLocation;
  }

  lemma AddedPageSettingsComplete(e: Element, p: Path, j: nat)
    requires ValidPath(e, p) && j < |Get(e, p).children|
    ensures Complete(InsertAt(e, p, j + 1, PageSettingsSection))
  {
    var i := j + 1;
    var t := InsertAt(e, p, i, PageSettingsSection);
    var k := InsertIndex(e, p, i);
    SectionHasAll();
    InsertedMatch(e, p, i, PageSettingsSection, [], PageSettingsSections);
    Witness(t, PageSettingsSections, p + [k] + []);
    InsertedMatch(e, p, i, PageSettingsSection, [0], HomePages);
    Witness(t, HomePages, p + [k] + [0]);
    InsertedMatch(e, p, i, PageSettingsSection, [0, 0, 0], MainContentBlocks);
    Witness(t, MainContentBlocks, p + [k] + [0, 0, 0]);
  }

  lemma AddedHomePageComplete(e: Element, p: Path)
    requires ValidPath(e, p) && MatchesAt(e, p, PageSettingsSections)
    ensures Complete(InsertAt(e, p, 0, HomePage))
  {
    var t := InsertAt(e, p, 0, HomePage);
    var k := InsertIndex(e, p, 0);
    HomePageHasBlock();
    InsertAtKeepsMatch(e, p, 0, HomePage, p, PageSettingsSections);
    Witness(t, PageSettingsSections, Shift(p, p, k));
    InsertedMatch(e, p, 0, HomePage, [], HomePages);
    Witness(t, HomePages, p + [k] + []);
    InsertedMatch(e, p, 0, HomePage, [0, 0], MainContentBlocks);
    Witness(t, MainContentBlocks, p + [k] + [0, 0]);
  }

  lemma AddedLocationComplete(e: Element, ps: Path, p: Path)
    requires ValidPath(e, ps) && MatchesAt(e, ps, PageSettingsSections)
    requires ValidPath(e, p) && MatchesAt(e, p, HomePages)
    ensures Complete(InsertAt(e, p, 0, MainContentLocation))
  {
    var t := InsertAt(e, p, 0, MainContentLocation);
    var k := InsertIndex(e, p, 0);
    LocationHasBlock();
    InsertAtKeepsMatch(e, p, 0, MainContentLocation, ps, PageSettingsSections);
    Witness(t, PageSettingsSections, Shift(ps, p, k));
    InsertAtKeepsMatch(e, p, 0, MainContentLocation, p, HomePages);
    Witness(t, HomePages, Shift(p, p, k));
    InsertedMatch(e, p, 0, MainContentLocation, [0], MainContentBlocks);
    Witness(t, MainContentBlocks, p + [k] + [0]);
  }

  /** Whatever is written has all three levels, so the block ACL widgets go to exists. */
  lemma AddTopLevelWidgetComplete(e: Element)
    requires AddTopLevelWidget(e).Written?
    ensures Complete(AddTopLevelWidget(e).tree)
  {
    if !Has(e, PageSettingsSections) {
      PageSettingsCaseComplete(e);
    } else if !Has(e, HomePages) {
      HomePageCaseComplete(e);
    } else {
      LocationCaseComplete(e);
    }
  }

  lemma PageSettingsCaseComplete(e: Element)
    requires AddTopLevelWidget(e).Written? && !Has(e, PageSettingsSections)
    ensures Complete(AddTopLevelWidget(e).tree)
  {
    var st := FindFirst(e, SiteTemplates).value;
    ParentValid(e, st);
    AddedPageSettingsComplete(e, Parent(st), st[|st| - 1]);
  }

  lemma HomePageCaseComplete(e: Element)
    requires AddTopLevelWidget(e).Written? && Has(e, PageSettingsSections) && !Has(e, HomePages)
    ensures Complete(AddTopLevelWidget(e).tree)
  {
    AddedHomePageComplete(e, FindFirst(e, PageSettingsSections).value);
  }

  lemma LocationCaseComplete(e: Element)
    requires AddTopLevelWidget(e).Written? && Has(e, PageSettingsSections) && Has(e, HomePages)
    ensures Complete(AddTopLevelWidget(e).tree)
  {
    AddedLocationComplete(e, FindFirst(e, PageSettingsSections).value, FindFirst(e, HomePages).value);
  }

  /** Running the routine on the file it has just written writes nothing. */
  lemma AddTopLevelWidgetIdempotent(e: Element)
    requires AddTopLevelWidget(e).Written?
    ensures AddTopLevelWidget(AddTopLevelWidget(e).tree) == NotWritten
  {
    AddTopLevelWidgetComplete(e);
  }

  /** Where each level goes: the new page settings right after the first site
      template section, under its parent; a new Home page or MainContent
      location as the first child of the first page settings section or Home
      page. The first site template section keeps its position. */
  lemma {:induction false} AddTopLevelWidgetPlacement(e: Element)
    requires AddTopLevelWidget(e).Written?
    ensures var t := AddTopLevelWidget(e).tree;
      if !Has(e, PageSettingsSections) then
        var st := FindFirst(e, SiteTemplates).value;
        && |st| > 0 && ValidPath(t, Parent(st))
        && |Get(t, Parent(st)).children| > st[|st| - 1] + 1
        && Get(t, Parent(st)).children[st[|st| - 1]] == Get(e, st)
        && Get(t, Parent(st)).children[st[|st| - 1] + 1] == PageSettingsSection
      else if !Has(e, HomePages) then
        var ps := FindFirst(e, PageSettingsSections).value;
        ValidPath(t, ps) && |Get(t, ps).children| > 0 && Get(t, ps).children[0] == HomePage
      else
        var hp := FindFirst(e, HomePages).value;
        ValidPath(t, hp) && |Get(t, hp).children| > 0 && Get(t, hp).children[0] == MainContentLocation
  {
    if !Has(e, PageSettingsSections) {
      var st := FindFirst(e, SiteTemplates).value;
      ParentValid(e, st);
      InsertAtTarget(e, Parent(st), st[|st| - 1] + 1, PageSettingsSection);
    } else if !Has(e, HomePages) {
      InsertAtTarget(e, FindFirst(e, PageSettingsSections).value, 0, HomePage);
    } else {
      InsertAtTarget(e, FindFirst(e, HomePages).value, 0, MainContentLocation);
    }
  }
}
