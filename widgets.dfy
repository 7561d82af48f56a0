/** The two widget builders (`magic_widget`, `alnp_widget`) and the choice
    between them made in `modify_xml`. A builder turns one row of the content
    listing request sheet into a placement element (`Widget`) and a settings
    element (`WidgetSetting`) with one `Setting` child per copied field. */
module Widgets {
  import opened Wrappers
  import opened XmlTree
  import opened Text

  /** A cell of the request sheet once NaN has been replaced by None. */
  datatype Value = Null | Str(s: string) | Bool(b: bool) | Int(i: int)

  /** One row as `to_dict('records')` gives it: (column, cell) pairs in column
      order. Column names are distinct, as in the dictionary. */
  type Record = seq<(string, Value)>

  /** `d[key]`: the cell of the column, None where the dictionary would raise KeyError. */
  function Lookup(d: Record, key: string): (r: Option<Value>)
    ensures r.None? <==> forall i :: 0 <= i < |d| ==> d[i].0 != key
    ensures r.Some? ==> exists i :: 0 <= i < |d| && d[i] == (key, r.value)
  {
    if |d| == 0 then None
    else if d[0].0 == key then Some(d[0].1)
    else
      var r := Lookup(d[1..], key);
      assert forall i :: 1 <= i < |d| ==> d[i] == d[1..][i - 1];
      r
  }

  /** `d.pop(key)` where the popped value is not used: the row without that column. */
  function Without(d: Record, key: string): (r: Record)
    ensures forall i :: 0 <= i < |r| ==> r[i].0 != key
    ensures forall f :: f in r <==> f in d && f.0 != key
    ensures |r| <= |d|
  {
    if |d| == 0 then []
    else (if d[0].0 == key then [] else [d[0]]) + Without(d[1..], key)
  }

  /** The remaining columns keep their order: popping from a row split in two
      pops from each part. */
  lemma {:induction false} WithoutAppend(d1: Record, d2: Record, key: string)
    ensures Without(d1 + d2, key) == Without(d1, key) + Without(d2, key)
  {
    if |d1| == 0 {
      assert d1 + d2 == d2;
    } else {
      assert (d1 + d2)[0] == d1[0];
      assert (d1 + d2)[1..] == d1[1..] + d2;
      WithoutAppend(d1[1..], d2, key);
    }
  }

  /** Popping an absent column changes nothing. */
  lemma {:induction false} WithoutAbsent(d: Record, key: string)
    requires forall i :: 0 <= i < |d| ==> d[i].0 != key
    ensures Without(d, key) == d
  {
    if |d| > 0 {
      var t := d[1..];
      forall i | 0 <= i < |t| ensures t[i].0 != key {
        assert t[i] == d[i + 1];
      }
      WithoutAbsent(t, key);
      assert Without(d, key) == [d[0]] + Without(t, key);
      assert [d[0]] + t == d;
    }
  }

  /** `d.pop(key)` on a row whose only `key` column is at `i` removes exactly that entry. */
  lemma PopAt(d: Record, key: string, i: nat)
    requires i < |d| && d[i].0 == key
    requires forall j :: 0 <= j < |d| && j != i ==> d[j].0 != key
    ensures Without(d, key) == d[..i] + d[i + 1..]
  {
    var a, b := d[..i], d[i + 1..];
    assert d == a + [d[i]] + b;
    assert Without(a + [d[i]], key) == a by {
      forall j | 0 <= j < |a| ensures a[j].0 != key {
        assert a[j] == d[j];
      }
      WithoutAbsent(a, key);
      WithoutAppend(a, [d[i]], key);
      assert Without([d[i]], key) == [];
    }
    assert Without(b, key) == b by {
      forall j | 0 <= j < |b| ensures b[j].0 != key {
        assert b[j] == d[i + 1 + j];
      }
      WithoutAbsent(b, key);
    }
    WithoutAppend(a + [d[i]], b, key);
  }

  /** `str(v)` for a cell that is not null. */
  function PyStr(v: Value): string
    requires !v.Null?
  {
    match v
    case Str(s) => s
    case Bool(b) => if b then "True" else "False"
    case Int(i) => IntToString(i)
  }

  /** The value a copied field is stored with: `str()`, then the four exact
      boolean words title-cased, then `&quot;` and afterwards `&amp;` replaced. */
  function NormalizeValue(v: Value): string
    requires !v.Null?
  {
    DecodeEntities(TitleBoolWord(PyStr(v)))
  }

  function Setting(name: string, value: string): Element {
    Leaf("Setting", map["name" := name, "value" := value, "type" := "RuntimeSetting"])
  }

  /** The columns magic_widget never copies. */
  const MagicSkippedKeys: set<string> := {"Mode", "ArticleListPageSize", "NumYearsOfCitations"}

  /** Python's `v in ('FALSE', 'False', 'false', False)`. Membership tests with
      `==`, and `0 == False` holds in Python, so the integer 0 is false-like too. */
  predicate FalseLike(v: Value) {
    v == Str("FALSE") || v == Str("False") || v == Str("false") || v == Bool(false) || v == Int(0)
  }

  datatype Variant = Magic | Alnp

  /** The builder of `kind` turns field `f` into a Setting. */
  predicate Copied(kind: Variant, f: (string, Value)) {
    && !f.1.Null?
    && match kind
       case Magic => f.0 !in MagicSkippedKeys
       case Alnp => !FalseLike(f.1)
  }

  function SettingFor(f: (string, Value)): Element
    requires !f.1.Null?
  {
    Setting(f.0, NormalizeValue(f.1))
  }

  /** The Settings one field contributes: its own, or none when not copied. */
  function CopiedOne(kind: Variant, f: (string, Value)): seq<Element> {
    if Copied(kind, f) then [SettingFor(f)] else []
  }

  /** The Settings the `for k, v in d.items()` loop of a builder adds, in row order. */
  function CopiedSettings(d: Record, kind: Variant): (r: seq<Element>)
    ensures |r| <= |d|
    ensures forall s :: s in r ==> s.tag == "Setting" && s.children == [] && s.text == None
    ensures forall s :: s in r ==> s.attrs.Keys == {"name", "value", "type"} && s.attrs["type"] == "RuntimeSetting"
  {
    if |d| == 0 then []
    else CopiedOne(kind, d[0]) + CopiedSettings(d[1..], kind)
  }

  /** A Setting is produced exactly for each copied field. */
  lemma {:induction false} CopiedSettingsMembers(d: Record, kind: Variant, s: Element)
    ensures s in CopiedSettings(d, kind) <==>
      exists i :: 0 <= i < |d| && Copied(kind, d[i]) && s == SettingFor(d[i])
  {
    if |d| > 0 {
      CopiedSettingsMembers(d[1..], kind, s);
      assert forall i :: 1 <= i < |d| ==> d[i] == d[1..][i - 1];
      if exists i :: 0 <= i < |d| && Copied(kind, d[i]) && s == SettingFor(d[i]) {
        var i :| 0 <= i < |d| && Copied(kind, d[i]) && s == SettingFor(d[i]);
        if i > 0 {
          assert d[1..][i - 1] == d[i];
        }
      }
    }
  }

  /** The Settings keep the order of the row: the Settings of a row split in two
      are those of the first part followed by those of the second. */
  lemma {:induction false} CopiedSettingsAppend(d1: Record, d2: Record, kind: Variant)
    ensures CopiedSettings(d1 + d2, kind) == CopiedSettings(d1, kind) + CopiedSettings(d2, kind)
    decreases |d1|
  {
    if |d1| == 0 {
      assert d1 + d2 == d2;
    } else {
      assert (d1 + d2)[1..] == d1[1..] + d2;
      CopiedSettingsAppend(d1[1..], d2, kind);
    }
  }

  /** The three Settings magic_widget always appends. */
  const MagicFixedSettings: seq<Element> := [
    Setting("ShowBasicView", "True"),
    Setting("VerticalListOrientation", "True"),
    Setting("BrowseAllEnable", "False")
  ]

  datatype WidgetPair = WidgetPair(placement: Element, settings: Element)

  /** `magic_widget(d, instance_name)`. */
  function MagicWidget(d: Record, name: string): (w: WidgetPair)
    ensures w.placement == Leaf("Widget", map["type" := "SelectableContentList", "instanceName" := name])
    ensures w.settings.tag == "WidgetSetting" && w.settings.text == None
    ensures w.settings.attrs == map["type" := "SelectableContentList", "instanceName" := name, "controllerName" := "Solr"]
    ensures |w.settings.children| >= 3
    ensures w.settings.children[|w.settings.children| - 3..] == MagicFixedSettings
  {
    var children := CopiedSettings(d, Magic) + MagicFixedSettings;
    assert children[|children| - 3..] == MagicFixedSettings;
    WidgetPair(
      Leaf("Widget", map["type" := "SelectableContentList", "instanceName" := name]),
      Element("WidgetSetting",
              map["type" := "SelectableContentList", "instanceName" := name, "controllerName" := "Solr"],
              None, children))
  }

  /** The Setting children of magic_widget's settings element are the non-null
      fields outside MagicSkippedKeys, in row order, then the three fixed ones. */
  lemma MagicWidgetChildren(d: Record, name: string, s: Element)
    ensures MagicWidget(d, name).settings.children == CopiedSettings(d, Magic) + MagicFixedSettings
    ensures s in MagicWidget(d, name).settings.children[..|MagicWidget(d, name).settings.children| - 3] <==>
      exists i :: 0 <= i < |d| && !d[i].1.Null? && d[i].0 !in MagicSkippedKeys && s == SettingFor(d[i])
  {
    var c := MagicWidget(d, name).settings.children;
    var copied := CopiedSettings(d, Magic);
    assert c[..|c| - 3] == copied;
    CopiedSettingsMembers(d, Magic, s);
  }

  // ---------------------------------------------------------------------
  // ALNP

  datatype BuildError = MissingColumn(key: string)

  /** `alnp_widget(d, instance_name)`; reading `d['CombinedModeList']` raises
      KeyError when the row has no such column. */
  function AlnpWidget(d: Record, name: string): (r: Result<WidgetPair, BuildError>)
    ensures r.Failure? <==> Lookup(d, "CombinedModeList").None?
    ensures r.Ok? ==>
      var w := r.value;
      && w.placement == Leaf("Widget", map["type" := "ArticleListNewAndPopular", "instanceName" := name])
      && w.settings.tag == "WidgetSetting" && w.settings.text == None
      && w.settings.children == CopiedSettings(d, Alnp)
      && w.settings.attrs.Keys == {"type", "instanceName", "controllerName", "actionName"}
      && w.settings.attrs["type"] == "ArticleListNewAndPopular"
      && w.settings.attrs["instanceName"] == name
  {
    match Lookup(d, "CombinedModeList")
    case None => Failure(MissingColumn("CombinedModeList"))
    case Some(combined) =>
      var controller := if combined != Null then "OUPCache" else "Article";
      var action := if combined != Null then "ArticleListNewAndPopularCombinedView" else "ArticleListNewAndPopularByMode";
      Ok(WidgetPair(
        Leaf("Widget", map["type" := "ArticleListNewAndPopular", "instanceName" := name]),
        Element("WidgetSetting",
                map["type" := "ArticleListNewAndPopular", "instanceName" := name,
                    "controllerName" := controller, "actionName" := action],
                None, CopiedSettings(d, Alnp))))
  }

  /** The controller and action depend only on whether `CombinedModeList` is set. */
  lemma AlnpController(d: Record, name: string)
    requires Lookup(d, "CombinedModeList").Some?
    ensures var s := AlnpWidget(d, name).value.settings;
      if Lookup(d, "CombinedModeList").value != Null then
        s.attrs["controllerName"] == "OUPCache" && s.attrs["actionName"] == "ArticleListNewAndPopularCombinedView"
      else
        s.attrs["controllerName"] == "Article" && s.attrs["actionName"] == "ArticleListNewAndPopularByMode"
  {
  }

  /** alnp_widget copies every non-null field that is not false-like, `Mode`
      included, and adds no fixed Settings. */
  lemma AlnpWidgetChildren(d: Record, name: string, s: Element)
    requires Lookup(d, "CombinedModeList").Some?
    ensures s in AlnpWidget(d, name).value.settings.children <==> AlnpSource(d, s)
  {
    AlnpCopiedMembers(d, s);
  }

  /** `s` is the Setting of a field that is not null and not false-like. */
  ghost predicate AlnpSource(d: Record, s: Element) {
    exists i :: 0 <= i < |d| && !d[i].1.Null? && !FalseLike(d[i].1) && s == SettingFor(d[i])
  }

  lemma AlnpCopiedMembers(d: Record, s: Element)
    ensures s in CopiedSettings(d, Alnp) <==> AlnpSource(d, s)
  {
    CopiedSettingsMembers(d, Alnp, s);
  }

  /** The integer 0 is omitted by alnp_widget, exactly like `False`, while
      magic_widget stores it as "0". */
  lemma ZeroIsFalseLike()
    ensures !Copied(Alnp, ("NumYearsOfCitations", Int(0)))
    ensures Copied(Magic, ("PageSize", Int(0))) && NormalizeValue(Int(0)) == "0"
  {
  }

  // ---------------------------------------------------------------------
  // the choice made in modify_xml

  /** The `try` block of modify_xml: ALNP when `Mode` is MostRead or MostCited
      or `CombinedModeList` is set, magic otherwise; a missing column raises. */
  function PreferredWidget(d: Record, name: string): Result<WidgetPair, BuildError> {
    match Lookup(d, "Mode")
    case None => Failure(MissingColumn("Mode"))
    case Some(mode) =>
      if mode == Str("MostRead") || mode == Str("MostCited") then AlnpWidget(d, name)
      else
        match Lookup(d, "CombinedModeList")
        case None => Failure(MissingColumn("CombinedModeList"))
        case Some(combined) => if combined != Null then AlnpWidget(d, name) else Ok(MagicWidget(d, name))
  }

  /** The widget modify_xml inserts: the preferred one, or magic_widget when
      building it raised (the `except`/`finally` fallback). */
  function ChooseWidget(d: Record, name: string): WidgetPair {
    match PreferredWidget(d, name)
    case Ok(w) => w
    case Failure(_) => MagicWidget(d, name)
  }

  predicate AlnpSelected(d: Record) {
    && Lookup(d, "Mode").Some?
    && Lookup(d, "CombinedModeList").Some?
    && (Lookup(d, "Mode").value in {Str("MostRead"), Str("MostCited")} || Lookup(d, "CombinedModeList").value != Null)
  }

  /** modify_xml builds an ALNP widget exactly when the row has both columns and
      asks for it; in every other case, missing columns included, it builds the
      magic widget. */
  lemma ChooseWidgetKind(d: Record, name: string)
    ensures AlnpSelected(d) ==> Ok(ChooseWidget(d, name)) == AlnpWidget(d, name)
    ensures !AlnpSelected(d) ==> ChooseWidget(d, name) == MagicWidget(d, name)
    ensures ChooseWidget(d, name).settings.attrs["type"] ==
      if AlnpSelected(d) then "ArticleListNewAndPopular" else "SelectableContentList"
  {
  }

  // ---------------------------------------------------------------------
  // value normalisation, on sample values

  /** Encoded quotes around a text without `&` or `"` are stored as literal quotes. */
  lemma DecodeQuoted(t: string)
    requires '&' !in t && '"' !in t
    ensures NormalizeValue(Str("&quot;" + t + "&quot;")) == "\"" + t + "\""
  {
    var u := "\"" + t + "\"";
    EscapeAppend("\"" + t, "\"");
    EscapeAppend("\"", t);
    EscapePlain(t);
    assert Escape("\"") == "&quot;";
    assert Escape(u) == "&quot;" + t + "&quot;";
    assert u[0] == '"';
    NormalizeEscaped(u);
  }

  /** For every text stored escaped in the sheet, normalisation gives back the
      text itself, title-cased exactly when it is one of the four boolean words. */
  lemma NormalizeEscaped(t: string)
    ensures NormalizeValue(Str(Escape(t))) == TitleBoolWord(t)
  {
    if IsBoolWord(Escape(t)) {
      BoolWordsPlain(Escape(t));
      EscapeWithoutAmp(t);
      BoolWordsPlain(t);
      DecodeWithoutAmpersand(TitleBoolWord(t));
    } else {
      DecodeEscape(t);
      if IsBoolWord(t) {
        BoolWordsPlain(t);
        EscapePlain(t);
        assert false;
      }
    }
  }

  lemma QuotNotInAmpQuot()
    ensures ReplaceAll("&amp;quot;", "&quot;", "\"") == "&amp;quot;"
  {
    var s := "&amp;quot;";
    ReplaceMismatch(s, "&quot;", "\"", 1);
    assert s[1..] == "amp;quot;" + "";
    ReplaceSkips("amp;quot;", "", "&quot;", "\"");
  }

  lemma AmpInAmpQuot()
    ensures ReplaceAll("&amp;quot;", "&amp;", "&") == "&quot;"
  {
    assert "&amp;quot;" == "&amp;" + ("quot;" + "");
    ReplaceFirst("quot;" + "", "&amp;", "&");
    ReplaceSkips("quot;", "", "&amp;", "&");
  }

  /** `&quot;` is replaced before `&amp;`, so `&amp;quot;` is decoded once only. */
  lemma DecodeOrder()
    ensures NormalizeValue(Str("&amp;quot;")) == "&quot;"
  {
    LongNotTitled("&amp;quot;");
    QuotNotInAmpQuot();
    AmpInAmpQuot();
  }

  /** Only the four exact words are title-cased. */
  lemma MixedCaseKept()
    ensures NormalizeValue(Str("True")) == "True"
    ensures NormalizeValue(Str("tRUE")) == "tRUE"
    ensures NormalizeValue(Str("false")) == "False"
    ensures NormalizeValue(Bool(false)) == "False"
  {
    DecodeWithoutAmpersand("True");
    DecodeWithoutAmpersand("tRUE");
    DecodeWithoutAmpersand("False");
  }
}
