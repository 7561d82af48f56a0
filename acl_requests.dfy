/** `modify_xml`: one row of the ACL request sheet becomes a widget placed in
    the MainContent block and its settings placed in the WidgetSettings
    section. */
module AclRequests {
  import opened Wrappers
  import opened XmlTree
  import opened TreeEdits
  import opened Widgets
  import opened Outcomes
  import opened Scaffold

  /** `//WidgetSettings` */
  const WidgetSettingsSections := Query(None, Step(Some("WidgetSettings"), NoCond), true)

  /** The columns popped from the row before the widget is built. */
  const BookkeepingColumns: set<string> := {"url_shortcode", "instance_name", "UserEmail", "TimeRequested"}

  /** A row addressed to the journal being edited, with its bookkeeping columns removed. */
  datatype Request = Request(instanceName: string, settings: Record)

  /** The pops at the top of the row loop. A missing `url_shortcode` or
      `instance_name` column raises KeyError; a row of another journal is
      skipped (None); `UserEmail` and `TimeRequested` are dropped when present.
      An instance name that is not text makes lxml raise TypeError when the
      widget element is built, whichever builder is used. */
  function ReadRow(d: Record, site: string): (r: Result<Option<Request>, PyError>)
    ensures (r.Ok? && r.value.None?) <==>
      Lookup(d, "url_shortcode").Some? && Lookup(d, "url_shortcode").value != Str(site)
    ensures r.Failure? <==>
      || Lookup(d, "url_shortcode").None?
      || (Lookup(d, "url_shortcode") == Some(Str(site)) &&
          (Lookup(d, "instance_name").None? || !Lookup(d, "instance_name").value.Str?))
    ensures r.Ok? && r.value.Some? ==> r.value.value.settings == Strip(d)
    ensures r.Ok? && r.value.Some? ==>
      forall f :: f in r.value.value.settings <==> f in d && f.0 !in BookkeepingColumns
    ensures r.Ok? && r.value.Some? ==>
      Lookup(d, "url_shortcode") == Some(Str(site)) &&
      Lookup(d, "instance_name") == Some(Str(r.value.value.instanceName))
  {
    match Lookup(d, "url_shortcode")
    case None => Failure(KeyError("url_shortcode"))
    case Some(url) =>
      if url != Str(site) then Ok(None)
      else
        LookupWithout(d, "url_shortcode", "instance_name");
        match Lookup(Without(d, "url_shortcode"), "instance_name")
        case None => Failure(KeyError("instance_name"))
        case Some(name) =>
          if !name.Str? then Failure(TypeError("instanceName"))
          else
            LookupWithout(d, "url_shortcode", "instance_name");
            Ok(Some(Request(name.s, Strip(d))))
  }

  /** The row once all four bookkeeping columns are popped. */
  function Strip(d: Record): (r: Record)
    ensures forall f :: f in r <==> f in d && f.0 !in BookkeepingColumns
  {
    Without(Without(Without(Without(d, "url_shortcode"), "instance_name"), "UserEmail"), "TimeRequested")
  }

  /** Stripping keeps the order of the remaining columns. */
  lemma StripAppend(d1: Record, d2: Record)
    ensures Strip(d1 + d2) == Strip(d1) + Strip(d2)
  {
    var a := Without(d1 + d2, "url_shortcode");
    WithoutAppend(d1, d2, "url_shortcode");
    var d1a, d2a := Without(d1, "url_shortcode"), Without(d2, "url_shortcode");
    WithoutAppend(d1a, d2a, "instance_name");
    var d1b, d2b := Without(d1a, "instance_name"), Without(d2a, "instance_name");
    WithoutAppend(d1b, d2b, "UserEmail");
    WithoutAppend(Without(d1b, "UserEmail"), Without(d2b, "UserEmail"), "TimeRequested");
  }

  /** A single column is kept exactly when it is not a bookkeeping one. */
  lemma StripOne(f: (string, Value))
    ensures Strip([f]) == if f.0 in BookkeepingColumns then [] else [f]
  {
  }

  lemma {:induction false} LookupWithout(d: Record, gone: string, key: string)
    requires gone != key
    ensures Lookup(Without(d, gone), key) == Lookup(d, key)
  {
    if |d| > 0 {
      var w, w' := Without(d, gone), Without(d[1..], gone);
      LookupWithout(d[1..], gone, key);
      if d[0].0 == gone {
        assert w == w';
      } else {
        assert w == [d[0]] + w';
        assert w[0] == d[0] && w[1..] == w';
      }
    }
  }

  /** Where the first `//WidgetSettings` section is once the placement has been
      inserted at the front of the first MainContent block, if there is one. */
  function SettingsTarget(e: Element): (s: Path)
    requires Has(e, WidgetSettingsSections)
  {
    var ws := FindFirst(e, WidgetSettingsSections).value;
    match FindFirst(e, MainContentBlocks)
    case None => ws
    case Some(b) => Shift(ws, b, 0)
  }

  /** The document after the placement step alone. */
  function WithPlacement(e: Element, w: WidgetPair): Element {
    match FindFirst(e, MainContentBlocks)
    case None => e
    case Some(b) => InsertAt(e, b, 0, w.placement)
  }

  lemma SettingsTargetValid(e: Element, w: WidgetPair)
    requires Has(e, WidgetSettingsSections)
    ensures ValidPath(WithPlacement(e, w), SettingsTarget(e))
    ensures LabelOf(Get(WithPlacement(e, w), SettingsTarget(e))) == LabelOf(Get(e, FindFirst(e, WidgetSettingsSections).value))
  {
    if Has(e, MainContentBlocks) {
      var b := FindFirst(e, MainContentBlocks).value;
      InsertAtShift(e, b, 0, w.placement, FindFirst(e, WidgetSettingsSections).value);
    }
  }

  /** The insertion steps of a row, with the handler at the placement step
      only logging: a document without a MainContent block still gets the
      settings. A document without a WidgetSettings section raises IndexError. */
  function InsertWidget(e: Element, w: WidgetPair): (o: Outcome)
    ensures o.Raised? <==> !Has(e, WidgetSettingsSections)
    ensures !o.NotWritten?
  {
    if !Has(e, WidgetSettingsSections) then Raised(IndexError("settings"))
    else
      SettingsTargetValid(e, w);
      Written(InsertAt(WithPlacement(e, w), SettingsTarget(e), 0, w.settings))
  }

  /** The same steps as written: the handler of the placement step calls
      `tqdm.write(message, str(e))`, whose second parameter is the output
      file, and writing to a string raises AttributeError. */
  function InsertWidgetAsWritten(e: Element, w: WidgetPair): (o: Outcome)
    ensures o.Raised? <==> !Has(e, MainContentBlocks) || !Has(e, WidgetSettingsSections)
    ensures !Has(e, MainContentBlocks) ==> o.error.AttributeError?
    ensures !o.NotWritten?
  {
    if !Has(e, MainContentBlocks) then Raised(AttributeError("'str' object has no attribute 'write'"))
    else InsertWidget(e, w)
  }

  /** The discrepancy: a document that has widget settings but no MainContent
      block gets the settings when the handler only logs, and loses the whole
      row as written. */
  lemma MissingBlockAbortsRow(e: Element, w: WidgetPair)
    requires !Has(e, MainContentBlocks) && Has(e, WidgetSettingsSections)
    ensures InsertWidgetAsWritten(e, w).Raised?
    ensures InsertWidget(e, w).Written?
  {
  }

  /** The two agree on every document that has a MainContent block. */
  lemma InsertWidgetAgrees(e: Element, w: WidgetPair)
    requires Has(e, MainContentBlocks)
    ensures InsertWidgetAsWritten(e, w) == InsertWidget(e, w)
  {
  }

  /** The settings lead the first WidgetSettings section, which is still a
      WidgetSettings section, whether or not a block was found. */
  lemma InsertWidgetSettings(e: Element, w: WidgetPair)
    requires InsertWidget(e, w).Written?
    ensures var t := InsertWidget(e, w).tree;
      && ValidPath(t, SettingsTarget(e))
      && |Get(t, SettingsTarget(e)).children| > 0
      && Get(t, SettingsTarget(e)).children[0] == w.settings
      && MatchesAt(t, SettingsTarget(e), WidgetSettingsSections)
  {
    SettingsTargetValid(e, w);
    var m, s := WithPlacement(e, w), SettingsTarget(e);
    InsertAtTarget(m, s, 0, w.settings);
    InsertAtShift(m, s, 0, w.settings, s);
  }

  /** With a MainContent block, the placement leads it, at the block's path as
      moved by the settings insertion. */
  lemma {:induction false} InsertWidgetPlacement(e: Element, w: WidgetPair)
    requires InsertWidget(e, w).Written? && Has(e, MainContentBlocks)
    ensures var t := InsertWidget(e, w).tree;
      var b := FindFirst(e, MainContentBlocks).value;
      ValidPath(t, Shift(b + [0], SettingsTarget(e), 0)) &&
      Get(t, Shift(b + [0], SettingsTarget(e), 0)) == w.placement
  {
    var b := FindFirst(e, MainContentBlocks).value;
    var m, s := WithPlacement(e, w), SettingsTarget(e);
    SettingsTargetValid(e, w);
    InsertAtInserted(e, b, 0, w.placement, []);
    assert b + [0] + [] == b + [0];
    assert !IsPrefix(b + [0], s) by {
      var ws := FindFirst(e, WidgetSettingsSections).value;
      if |ws| > |b| && ws[..|b|] == b {
        assert s[|b|] == ws[|b|] + 1 && |s| == |ws|;
        assert s[..|b| + 1][|b|] == s[|b|];
      } else {
        assert s == ws;
        assert |ws| >= |b| + 1 ==> ws[..|b| + 1][..|b|] == ws[..|b|];
        assert (b + [0])[..|b|] == b;
      }
    }
    InsertAtShift(m, s, 0, w.settings, b + [0]);
  }

  /** Every node of the document is still there with the same tag, attributes
      and text, at its path as moved by the two insertions. */
  lemma InsertWidgetKeepsNodes(e: Element, w: WidgetPair, q: Path)
    requires InsertWidget(e, w).Written? && ValidPath(e, q)
    ensures var t := InsertWidget(e, w).tree;
      var moved := match FindFirst(e, MainContentBlocks)
        case None => q
        case Some(b) => Shift(q, b, 0);
      ValidPath(t, Shift(moved, SettingsTarget(e), 0)) &&
      LabelOf(Get(t, Shift(moved, SettingsTarget(e), 0))) == LabelOf(Get(e, q))
  {
    SettingsTargetValid(e, w);
    var m := WithPlacement(e, w);
    var moved := q;
    if Has(e, MainContentBlocks) {
      var b := FindFirst(e, MainContentBlocks).value;
      InsertAtShift(e, b, 0, w.placement, q);
      moved := Shift(q, b, 0);
    }
    InsertAtShift(m, SettingsTarget(e), 0, w.settings, moved);
  }

  /** One row: read it, build the widget, insert it. */
  function ProcessRow(e: Element, d: Record, site: string): Outcome {
    match ReadRow(d, site)
    case Failure(err) => Raised(err)
    case Ok(None) => NotWritten
    case Ok(Some(req)) => InsertWidget(e, ChooseWidget(req.settings, req.instanceName))
  }

  /** One row as written, with the placement handler that raises. */
  function ProcessRowAsWritten(e: Element, d: Record, site: string): Outcome {
    match ReadRow(d, site)
    case Failure(err) => Raised(err)
    case Ok(None) => NotWritten
    case Ok(Some(req)) => InsertWidgetAsWritten(e, ChooseWidget(req.settings, req.instanceName))
  }

  /** As written and corrected, a row is handled alike on documents with a
      MainContent block. */
  lemma ProcessRowAgrees(e: Element, d: Record, site: string)
    requires Has(e, MainContentBlocks)
    ensures ProcessRowAsWritten(e, d, site) == ProcessRow(e, d, site)
  {
    match ReadRow(d, site)
    case Failure(_) =>
    case Ok(None) =>
    case Ok(Some(req)) => InsertWidgetAgrees(e, ChooseWidget(req.settings, req.instanceName));
  }

  /** Without a MainContent block, a row for this journal raises as written
      and gets its settings corrected. */
  lemma MissingBlockAbortsProcessRow(e: Element, d: Record, site: string)
    requires !Has(e, MainContentBlocks) && Has(e, WidgetSettingsSections)
    requires ReadRow(d, site).Ok? && ReadRow(d, site).value.Some?
    ensures ProcessRowAsWritten(e, d, site).Raised?
    ensures ProcessRow(e, d, site).Written?
  {
    var req := ReadRow(d, site).value.value;
    MissingBlockAbortsRow(e, ChooseWidget(req.settings, req.instanceName));
  }

  /** A builder names its Settings after columns of the row, or after one of
      the three fixed magic settings. */
  lemma {:induction false} SettingNamesFromRow(d: Record, kind: Variant, s: Element)
    requires s in CopiedSettings(d, kind)
    ensures "name" in s.attrs && exists i :: 0 <= i < |d| && s.attrs["name"] == d[i].0
  {
    CopiedSettingsMembers(d, kind, s);
    var i :| 0 <= i < |d| && Copied(kind, d[i]) && s == SettingFor(d[i]);
  }

  lemma CopiedNamesClean(rest: Record, kind: Variant, s: Element)
    requires forall f :: f in rest ==> f.0 !in BookkeepingColumns
    requires s in CopiedSettings(rest, kind)
    ensures "name" in s.attrs && s.attrs["name"] !in BookkeepingColumns
  {
    SettingNamesFromRow(rest, kind, s);
    var i :| 0 <= i < |rest| && s.attrs["name"] == rest[i].0;
    assert rest[i] in rest;
  }

  lemma FixedNamesClean(s: Element)
    requires s in MagicFixedSettings
    ensures "name" in s.attrs && s.attrs["name"] !in BookkeepingColumns
  {
    var names := ["ShowBasicView", "VerticalListOrientation", "BrowseAllEnable"];
    var i :| 0 <= i < 3 && s == MagicFixedSettings[i];
    assert s.attrs["name"] == names[i];
  }

  lemma BuiltSettingNames(rest: Record, name: string, s: Element)
    requires forall f :: f in rest ==> f.0 !in BookkeepingColumns
    requires s in ChooseWidget(rest, name).settings.children
    ensures "name" in s.attrs && s.attrs["name"] !in BookkeepingColumns
  {
    ChooseWidgetKind(rest, name);
    if AlnpSelected(rest) {
      CopiedNamesClean(rest, Alnp, s);
    } else {
      MagicWidgetChildren(rest, name, s);
      if s in CopiedSettings(rest, Magic) {
        CopiedNamesClean(rest, Magic, s);
      } else {
        FixedNamesClean(s);
      }
    }
  }

  /** None of the bookkeeping columns ever becomes a Setting of the widget. */
  lemma NoBookkeepingSettings(d: Record, site: string, s: Element)
    requires ReadRow(d, site).Ok? && ReadRow(d, site).value.Some?
    requires var req := ReadRow(d, site).value.value;
      s in ChooseWidget(req.settings, req.instanceName).settings.children
    ensures "name" in s.attrs && s.attrs["name"] !in BookkeepingColumns
  {
    var req := ReadRow(d, site).value.value;
    BuiltSettingNames(req.settings, req.instanceName, s);
  }

  /** A row addressed to another journal leaves the document alone. */
  lemma OtherJournalSkipped(e: Element, d: Record, site: string)
    requires Lookup(d, "url_shortcode").Some? && Lookup(d, "url_shortcode").value != Str(site)
    ensures ProcessRow(e, d, site) == NotWritten
  {
  }
}
