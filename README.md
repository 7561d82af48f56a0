# Sitebuilder document editing, modelled in Dafny

The editing tasks work on one journal site's configuration, data or rankings
document. A task parses the document (the new copy if the seconds field of its
age is under a minute, else the original; see the first row under Findings), edits the tree in place and writes it to the
new copy. The edits are:

- the page scaffold that content listing (ACL) widgets need;
- one widget per request row, built by the magic or the ALNP builder;
- the TrendMD widget in the right rail;
- the yearly ranking and impact-factor entries.

`FileToUpdate` supplies each site's two file paths and puts the site in a
shared shortcode table. `SitebuilderSite` adds the site's editing URL.

The modules follow the program's structure:

- `XmlTree` (xml_tree.dfy): the document as an ordered tree of elements with a
  tag, an attribute map, optional text and children. A node is named by its
  path of child indices. Each XPath the routines use is a `Query` on a node and
  its parent; `FindAll` and `FindFirst` (`xpath(...)` and its first element)
  return the matches in document order. `Find` is lxml's `find`, which walks a
  two-step path parent by parent.
- `TreeEdits` (tree_edits.dfy): lxml's `insert`, attribute assignment and the
  removal of a set of nodes. It also says where every existing node is
  afterwards (`Shift`, `Translate`).
- `Text` (text.dfy): `str()` of an integer, `str.replace`, and `title()` of
  the four boolean words.
- `Widgets` (widgets.dfy): a request row as an ordered list of (column, cell)
  pairs. It holds the two builders and the choice between them, with its
  fallback.
- `Scaffold`, `AclRequests`, `TrendMd`, `CurrentEntries`: each routine as a
  function from the parsed tree to an `Outcome`. The outcome is nothing
  written, the tree written, or the Python exception raised. The properties
  are lemmas about these functions.
- `ModifyFile` (modify_file.dfy):
  - the choice of the file to read;
  - the class `Document`, whose methods run the routines in place on its
    `root`, each with loops where the source has them (the demotion loop and
    the right rail scan) and each proved equal to the routine's function;
  - the class `RankingsFile`, the parse-retry loop of the ranking update.
- `Sites` (sites.dfy): `posixpath.join`, the two file paths, the shared table
  as a class and the site URL rule.

Inputs the program reads from its environment are parameters:

- the parsed tree, or None when the text does not parse;
- the target year (`datetime.now().year - 1`);
- whether the new file exists, and the time since it was written, in
  microseconds;
- the current directory (`abspath("")`);
- the request row, already read from the spreadsheet;
- the two impact-factor values, already formatted.

Four behaviours a reader might expect do not hold. This model follows the
code:

- Re-running the ranking update for the same year is not idempotent. Each run
  adds another current rank for that year (`CurrentEntries.UpdateRankingTwice`).
  Demotion is document-wide, not per category.
- The TrendMD scan has no Alerts fallback. The Alerts test runs only after
  reading `type` has raised, so it raises again. With no SeeAlso child, `pos`
  is unbound (`TrendMd.AlertsNotUsed`, `TrendMd.SeeAlsoPosition`).
- The existing TrendMD settings element is never removed
  (`TrendMd.OldSettingsNotRemoved`).
- The TrendMD placement that is removed is not always the first in document
  order. `find` on `.//Block/*[@type='TrendMD']` goes through the Blocks in
  document order and takes the first one's children first, so a widget of an
  outer Block comes before one of a Block nested in it
  (`TrendMd.NestedBlocksFind`).

## Model

| member | source | states |
|---|---|---|
| XmlTree.FindAll | sitebuilder_interaction_tasks/ModifyFile.py:48-51 | A path is in the result exactly when it is a node of the tree that the query selects. With `//` the root is included; with `.//` it is not. The paths come in document order, so none is repeated. |
| XmlTree.FindFirst | sitebuilder_interaction_tasks/ModifyFile.py:130-135 | The result is present exactly when some node matches. A present result is a matching node that comes before every other match in document order, as `xpath(...)[0]` gives. |
| XmlTree.Find | sitebuilder_interaction_tasks/ModifyFile.py:251-254 | `find`: present exactly when some node matches, and then a match. For a one-step path it is the first match in document order. For `parent/self` every other match has a later parent in document order, or the same parent and a later position under it. |
| XmlTree.BeforeAsymmetric | sitebuilder_interaction_tasks/ModifyFile.py:48-51 | Document order is a strict order: no node comes before a node that comes before it. |
| XmlTree.InOrderDistinct | sitebuilder_interaction_tasks/ModifyFile.py:48-51 | A list of paths in document order holds no path twice. |
| TreeEdits.InsertChild | sitebuilder_interaction_tasks/ModifyFile.py:59-60 | `insert(i, x)` adds exactly one child. `x` sits at `i`, or at the end when `i` is past it. The children before it stay in place and those after it move up by one. |
| TreeEdits.InsertAtTarget | sitebuilder_interaction_tasks/ModifyFile.py:67 | Inserting under the node at `p` changes that node's child list by `InsertChild` and nothing else there. |
| TreeEdits.InsertAtShift | sitebuilder_interaction_tasks/ModifyFile.py:130-135 | Every node that existed is still present after an insert, at its shifted path, with the same tag, attributes and text. A node not containing the insertion point keeps its whole subtree. |
| TreeEdits.InsertAtKeepsMatch | sitebuilder_interaction_tasks/ModifyFile.py:48-51 | A node a query selected is still selected at its shifted path after an insert. |
| TreeEdits.InsertedMatch | sitebuilder_interaction_tasks/ModifyFile.py:54-60 | A node of the inserted element that a query selects within that element is selected in the new tree. |
| TreeEdits.InsertAtUnshift | sitebuilder_interaction_tasks/ModifyFile.py:59-60 | Every node of the tree after an insert is either inside the inserted element or an old node at its shifted path. |
| TreeEdits.InsertAtInserted | sitebuilder_interaction_tasks/ModifyFile.py:59-60 | The inserted element sits whole at the parent's path plus its index. |
| TreeEdits.SetAttrAt | sitebuilder_interaction_tasks/ModifyFile.py:323 | Assigning `attrib[key]` changes that attribute of one node. Every path and every other label is unchanged. |
| TreeEdits.RemoveSetAt | sitebuilder_interaction_tasks/ModifyFile.py:258-260 | After the removals, a node none of whose ancestors was removed is at its translated path. Its subtree has the removals applied. |
| TreeEdits.KeepChildrenAt | sitebuilder_interaction_tasks/ModifyFile.py:260 | A child that is not removed is at the index given by the number of kept siblings before it. |
| TreeEdits.KeptSource | sitebuilder_interaction_tasks/ModifyFile.py:258-260 | Each child left after the removals comes from a kept original child, at the index given by the kept siblings before it, with the removals applied below it. |
| TreeEdits.Untranslate | sitebuilder_interaction_tasks/ModifyFile.py:258-260 | Every node left after the removals is the translated path of a kept original node, and its subtree is the original subtree with the removals applied. |
| TreeEdits.KeptNotGone | sitebuilder_interaction_tasks/ModifyFile.py:258-260 | A kept node below the root is not one of the removed nodes. |
| TreeEdits.InsertOrigin | sitebuilder_interaction_tasks/ModifyFile.py:59-60 | Every node after an insert is a node of the inserted element, or an old node at its unshifted path with the same label. An old node off the insert path keeps its whole subtree. |
| Text.IntToString | sitebuilder_interaction_tasks/ModifyFile.py:322 | `str(i)` is non-empty and starts with `-` exactly for negative numbers. |
| Text.IntToStringInjective | sitebuilder_interaction_tasks/ModifyFile.py:322 | Two years with the same `str()` are equal, so the test on the `year` attribute compares years. |
| Text.ReplaceAbsent | sitebuilder_interaction_tasks/ModifyFile.py:171-172 | Replacing a pattern that does not occur changes nothing, so the guard before the replacements does not change the result. |
| Text.DecodeWithoutAmpersand | sitebuilder_interaction_tasks/ModifyFile.py:171-172 | A value without `&` is stored unchanged. |
| Text.TitleBoolWord | sitebuilder_interaction_tasks/ModifyFile.py:166-167 | `title()`, applied to the four words only (`Title`: a letter after a letter is lower-cased, any other letter upper-cased), turns `TRUE`/`true` into `True` and `FALSE`/`false` into `False`. Every other string is unchanged. |
| Text.TitleOfBoolWords | sitebuilder_interaction_tasks/ModifyFile.py:167 | `title()` of each of the four words is `True` or `False`. |
| Text.BoolWordsPlain | sitebuilder_interaction_tasks/ModifyFile.py:166-167 | The four words and their titles contain no `&` or `"`. |
| Text.LongNotTitled | sitebuilder_interaction_tasks/ModifyFile.py:166 | A value longer than five characters is never title-cased. |
| Text.QuotDecodeEscape | sitebuilder_interaction_tasks/ModifyFile.py:172 | Replacing `&quot;` in an escaped text restores every `"` and leaves each `&amp;` in place. |
| Text.AmpDecodeEscape | sitebuilder_interaction_tasks/ModifyFile.py:172 | Replacing `&amp;` afterwards restores every `&`. |
| Text.DecodeEscape | sitebuilder_interaction_tasks/ModifyFile.py:171-172 | The two replacements, in their order, decode every text escaped with `&amp;` and `&quot;`: an escaped `&quot;` comes back as `&quot;`. |
| Text.EscapeAppend | sitebuilder_interaction_tasks/ModifyFile.py:171-172 | Escaping a concatenation is the concatenation of the escaped parts, so texts can be escaped field by field. |
| Text.EscapePlain | sitebuilder_interaction_tasks/ModifyFile.py:171-172 | A text without `&` or `"` needs no escaping. |
| Text.EscapeWithoutAmp | sitebuilder_interaction_tasks/ModifyFile.py:171-172 | An escaped text without `&` is the text itself. |
| Widgets.Lookup | sitebuilder_interaction_tasks/ModifyFile.py:112 | `d[key]` is absent exactly when no column has that name. A present value is the cell of such a column. |
| Widgets.Without | sitebuilder_interaction_tasks/ModifyFile.py:93-100 | `d.pop(key)` leaves exactly the other columns, and no column of that name. |
| Widgets.WithoutAppend | sitebuilder_interaction_tasks/ModifyFile.py:93-100 | Popping a column keeps the order of the remaining columns: a row split in two loses the column from each part. |
| Widgets.WithoutAbsent | sitebuilder_interaction_tasks/ModifyFile.py:93-100 | Popping a column the row does not have leaves the row unchanged. |
| Widgets.PopAt | sitebuilder_interaction_tasks/ModifyFile.py:93-100 | With distinct column names, popping a column removes exactly its one entry and keeps all others in order. |
| Widgets.CopiedSettings | sitebuilder_interaction_tasks/ModifyFile.py:156-176 | The loop adds at most one Setting per field. Each one has no children and no text, and carries exactly `name`, `value` and `type='RuntimeSetting'`. |
| Widgets.CopiedSettingsMembers | sitebuilder_interaction_tasks/ModifyFile.py:156-176 | A Setting is produced exactly for each field the builder copies. |
| Widgets.CopiedSettingsAppend | sitebuilder_interaction_tasks/ModifyFile.py:156 | The Settings follow the row's column order. |
| Widgets.MagicWidget | sitebuilder_interaction_tasks/ModifyFile.py:148-189 | The placement is a childless `Widget` of type SelectableContentList. The settings element is a `WidgetSetting` with this type and `controllerName='Solr'`, and it ends with the three fixed Settings. |
| Widgets.MagicWidgetChildren | sitebuilder_interaction_tasks/ModifyFile.py:156-187 | The children of the settings element are the non-null fields outside `Mode`, `ArticleListPageSize` and `NumYearsOfCitations`, in row order. Exactly `ShowBasicView=True`, `VerticalListOrientation=True` and `BrowseAllEnable=False` follow them. |
| Widgets.AlnpWidget | sitebuilder_interaction_tasks/ModifyFile.py:197-237 | The builder fails exactly when the row has no `CombinedModeList`. Otherwise both elements have type ArticleListNewAndPopular, and the children are exactly the ALNP-copied Settings. |
| Widgets.AlnpController | sitebuilder_interaction_tasks/ModifyFile.py:197-211 | The controller and action are OUPCache with the combined view when `CombinedModeList` is set. Otherwise they are Article with the by-mode view. |
| Widgets.AlnpWidgetChildren | sitebuilder_interaction_tasks/ModifyFile.py:215-235 | A Setting is produced exactly for each non-null field that is not one of `'FALSE'`, `'False'`, `'false'` or `False`. `Mode` is included. |
| Widgets.AlnpCopiedMembers | sitebuilder_interaction_tasks/ModifyFile.py:215-235 | A Setting is among those copied for alnp_widget exactly when some non-null field that is not false-like produces it. |
| Widgets.ZeroIsFalseLike | sitebuilder_interaction_tasks/ModifyFile.py:220 | The integer 0 is dropped by the ALNP builder, because `0 == False` in Python. The magic builder stores it as "0". |
| Widgets.ChooseWidgetKind | sitebuilder_interaction_tasks/ModifyFile.py:111-125 | The ALNP widget is built exactly when both columns exist and `Mode` is MostRead or MostCited, or `CombinedModeList` is set. In every other case, missing columns included, the magic widget is built. |
| Widgets.DecodeQuoted | sitebuilder_interaction_tasks/ModifyFile.py:171-172 | `&quot;` around any text without `&` or `"` is stored as a literal quote. |
| Widgets.DecodeOrder | sitebuilder_interaction_tasks/ModifyFile.py:172 | `&quot;` is replaced before `&amp;`, so `&amp;quot;` becomes `&quot;`, not `"`. |
| Widgets.MixedCaseKept | sitebuilder_interaction_tasks/ModifyFile.py:166-167 | Only the four exact words are title-cased: `tRUE` and `True` are kept, while the string `false` and the boolean False both become `False`. |
| Widgets.NormalizeEscaped | sitebuilder_interaction_tasks/ModifyFile.py:160-172 | For every text, its escaped form is stored as the text itself, title-cased exactly when it is one of the four boolean words. |
| Scaffold.AddTopLevelWidget | sitebuilder_interaction_tasks/ModifyFile.py:48-74 | Nothing is written exactly when the page settings, the Home page and the MainContent block all exist. The routine raises exactly when there is no page settings section and no site template section with a parent. |
| Scaffold.AddTopLevelWidgetComplete | sitebuilder_interaction_tasks/ModifyFile.py:53-74 | Whichever case fires, the written document has the page settings, the Home page and the MainContent block. |
| Scaffold.AddTopLevelWidgetIdempotent | sitebuilder_interaction_tasks/ModifyFile.py:48-74 | Running the routine on the document it wrote writes nothing. |
| Scaffold.AddTopLevelWidgetPlacement | sitebuilder_interaction_tasks/ModifyFile.py:53-73 | The first missing level decides the insert. New page settings go right after the first site template section, which keeps its index. A new Home page or MainContent location becomes the first child of the first page settings section or Home page. |
| Scaffold.AddedPageSettingsComplete | sitebuilder_interaction_tasks/ModifyFile.py:54-60 | Inserting the full chain after any child produces a complete document. |
| Scaffold.AddedHomePageComplete | sitebuilder_interaction_tasks/ModifyFile.py:64-67 | Inserting the Home page into a page settings section produces a complete document. |
| Scaffold.AddedLocationComplete | sitebuilder_interaction_tasks/ModifyFile.py:71-73 | Inserting the location into a Home page, with page settings present, produces a complete document. |
| AclRequests.ReadRow | sitebuilder_interaction_tasks/ModifyFile.py:85-100 | A row is skipped exactly when its `url_shortcode` is some other value. A row that is kept has this journal's shortcode, and the widget is named by its text `instance_name`. Its settings are exactly the row with the four bookkeeping columns popped, in row order. Reading fails exactly when there is no `url_shortcode`, or the row is for this journal and has no text `instance_name`. |
| AclRequests.Strip | sitebuilder_interaction_tasks/ModifyFile.py:85-100 | The stripped row holds exactly the fields outside the bookkeeping columns. |
| AclRequests.StripAppend | sitebuilder_interaction_tasks/ModifyFile.py:85-100 | Popping the bookkeeping columns keeps the order of the other columns. |
| AclRequests.StripOne | sitebuilder_interaction_tasks/ModifyFile.py:85-100 | A single field survives exactly when it is not a bookkeeping column. |
| AclRequests.LookupWithout | sitebuilder_interaction_tasks/ModifyFile.py:85-100 | Popping one column leaves every other column's value as it was. |
| AclRequests.InsertWidget | sitebuilder_interaction_tasks/ModifyFile.py:129-138 | A matching row raises exactly when there is no WidgetSettings section. Otherwise it writes. |
| AclRequests.SettingsTargetValid | sitebuilder_interaction_tasks/ModifyFile.py:109-135 | The first WidgetSettings section, found before the placement insert, is still there afterwards at its shifted path. |
| AclRequests.InsertWidgetAsWritten | sitebuilder_interaction_tasks/ModifyFile.py:129-135 | As written, a matching row raises exactly when there is no MainContent block or no WidgetSettings section; a missing block raises AttributeError. |
| AclRequests.MissingBlockAbortsRow | sitebuilder_interaction_tasks/ModifyFile.py:129-135 | With settings but no MainContent block, the code as written raises where the logging handler lets the corrected code write. |
| AclRequests.InsertWidgetAgrees | sitebuilder_interaction_tasks/ModifyFile.py:129-135 | With a MainContent block, the code as written and the corrected code agree. |
| AclRequests.ProcessRowAgrees | sitebuilder_interaction_tasks/ModifyFile.py:84-135 | With a MainContent block, a whole row gives the same outcome as written and corrected. |
| AclRequests.MissingBlockAbortsProcessRow | sitebuilder_interaction_tasks/ModifyFile.py:84-135 | Without a MainContent block, a row for this journal raises as written, and the corrected row writes its settings. |
| AclRequests.InsertWidgetSettings | sitebuilder_interaction_tasks/ModifyFile.py:135 | The settings element is the first child of the first WidgetSettings section, which still matches `//WidgetSettings`. |
| AclRequests.InsertWidgetPlacement | sitebuilder_interaction_tasks/ModifyFile.py:130 | The placement element is the first child of the first MainContent block. |
| AclRequests.InsertWidgetKeepsNodes | sitebuilder_interaction_tasks/ModifyFile.py:130-135 | Every node of the document is still in the written tree, at its path shifted by the two inserts, with the same tag, attributes and text. |
| AclRequests.SettingNamesFromRow | sitebuilder_interaction_tasks/ModifyFile.py:174-176 | Every copied Setting is named after a column of the row. |
| AclRequests.CopiedNamesClean | sitebuilder_interaction_tasks/ModifyFile.py:174-176 | A Setting copied from the stripped row is not named after a bookkeeping column. |
| AclRequests.FixedNamesClean | sitebuilder_interaction_tasks/ModifyFile.py:179-187 | None of the fixed Settings is named after a bookkeeping column. |
| AclRequests.BuiltSettingNames | sitebuilder_interaction_tasks/ModifyFile.py:111-125 | Whichever builder is chosen, a stripped row yields no Setting named after a bookkeeping column. |
| AclRequests.NoBookkeepingSettings | sitebuilder_interaction_tasks/ModifyFile.py:85-125 | No popped column becomes a Setting of the widget. |
| AclRequests.OtherJournalSkipped | sitebuilder_interaction_tasks/ModifyFile.py:85-86 | A row for another journal writes nothing. |
| TrendMd.OldSettingsNotRemoved | sitebuilder_interaction_tasks/ModifyFile.py:254-260 | The TrendMD settings found at line 254 are never among the removed nodes. |
| TrendMd.NestedBlocksFind | sitebuilder_interaction_tasks/ModifyFile.py:253 | On a Block holding a Block with a TrendMD widget and then a TrendMD widget of its own, `find` returns the outer Block's widget, while the first match in document order is the nested one. |
| TrendMd.RemovalsBelow | sitebuilder_interaction_tasks/ModifyFile.py:251-253 | Every node the three `find` calls return is a node of the document below the root, so each removal has a parent to remove it from. |
| TrendMd.RemovedNotKept | sitebuilder_interaction_tasks/ModifyFile.py:256-260 | A node named in the removal list is not kept. |
| TrendMd.AfterRemovalsCovers | sitebuilder_interaction_tasks/ModifyFile.py:256-260 | Every node after the removals sits at the translated path of an original node that is kept and is not one of the removed nodes, and carries that node's label. |
| TrendMd.SeeAlsoPosition | sitebuilder_interaction_tasks/ModifyFile.py:265-280 | `pos` is unbound exactly when no child is typed SeeAlso. Otherwise it is one past the last SeeAlso child, and no SeeAlso child follows it. |
| TrendMd.ScanRightRail | sitebuilder_interaction_tasks/ModifyFile.py:265-280 | The front-to-back loop leaves `pos` equal to `SeeAlsoPosition`. |
| TrendMd.AlertsNotUsed | sitebuilder_interaction_tasks/ModifyFile.py:274-277 | An Alerts child does not set `pos`. |
| TrendMd.TrendMdWidget | sitebuilder_interaction_tasks/ModifyFile.py:249-288 | The routine raises exactly when any of these holds: there is no second right rail block; that block has no SeeAlso child after the removals; or there is no WidgetSettings section. Missing removal targets never make it raise. |
| TrendMd.SettingsTargetValid | sitebuilder_interaction_tasks/ModifyFile.py:288 | The first WidgetSettings section, when not removed, is still present after the widget insert, with its tag. |
| TrendMd.WidgetAfterLastSeeAlso | sitebuilder_interaction_tasks/ModifyFile.py:265-287 | The new widget is inserted right after the last SeeAlso child of the scanned block. The block has one child more, and no SeeAlso child follows the widget. |
| TrendMd.SettingsFirst | sitebuilder_interaction_tasks/ModifyFile.py:283-288 | The new settings element is the first child of the first WidgetSettings section. |
| TrendMd.WidgetSurvivesSettings | sitebuilder_interaction_tasks/ModifyFile.py:287-288 | The widget is still in place once the settings are inserted, at its shifted path. |
| TrendMd.WithWidgetCovers | sitebuilder_interaction_tasks/ModifyFile.py:258-287 | Once the widget is inserted, every node is the widget or carries the label of a kept original node. |
| TrendMd.WithSettingsCovers | sitebuilder_interaction_tasks/ModifyFile.py:258-288 | Once the settings are inserted too, every node is part of the new settings, the widget, or carries the label of a kept original node. |
| TrendMd.SettingsInsertCovers | sitebuilder_interaction_tasks/ModifyFile.py:288 | After the settings insert at any WidgetSettings section, every node is part of the new settings, the already placed widget, or carries the label of a kept original node. |
| TrendMd.SettingsInsertOrigin | sitebuilder_interaction_tasks/ModifyFile.py:288 | After inserting an element at the front of a WidgetSettings section, a node inside it is a node of the inserted element; any other node keeps the label of the node it was before, and a placed TrendMD widget stays whole. |
| TrendMd.TrendMdWidgetCovers | sitebuilder_interaction_tasks/ModifyFile.py:249-288 | Every node of a written document is part of the new TrendMD settings, the new widget, or carries the label of a kept original node. |
| TrendMd.WithWidgetKeepsNodes | sitebuilder_interaction_tasks/ModifyFile.py:251-287 | After the removals and the widget insert, every original node that is not removed or inside a removed node is at its translated and shifted path (`WidgetMoved`), with its label. |
| TrendMd.WithSettingsKeepsNodes | sitebuilder_interaction_tasks/ModifyFile.py:251-288 | The same after the settings insert too, at the path `SettingsMoved` gives. |
| TrendMd.TrendMdWidgetKeepsNodes | sitebuilder_interaction_tasks/ModifyFile.py:249-288 | The routine loses only what it removes: in the written document every kept original node is at its moved path with its label. With `TrendMdWidgetCovers`, nothing else is added but the new widget and settings. |
| CurrentEntries.DemoteAt | sitebuilder_interaction_tasks/ModifyFile.py:321-323 | Demotion keeps every path and child count. Each label becomes its demoted label. |
| CurrentEntries.DemoteBelowAt | sitebuilder_interaction_tasks/ModifyFile.py:316-323 | Demoting the nodes below the root keeps every path and child count. The root's label is unchanged, and every node below it gets its demoted label. |
| CurrentEntries.CurrentHasYear | sitebuilder_interaction_tasks/ModifyFile.py:322 | When no KeyError is raised, every current entry below the root has a `year`. |
| CurrentEntries.ReplaceMovesOld | sitebuilder_interaction_tasks/ModifyFile.py:320-343 | After demotion and insert, every old node is at its shifted path, with the label the demotion gives it. |
| CurrentEntries.ReplaceCovers | sitebuilder_interaction_tasks/ModifyFile.py:338-343 | Every node of the updated tree is an old node or a node of the inserted element. |
| CurrentEntries.ReplaceOnlyYear | sitebuilder_interaction_tasks/ModifyFile.py:320-343 | After the update, every current entry below the root is for the target year. |
| CurrentEntries.ReplaceOldCurrent | sitebuilder_interaction_tasks/ModifyFile.py:320-323 | A current entry outside the new element was already current for the target year and is unchanged. |
| CurrentEntries.SkeletonRanking | sitebuilder_interaction_tasks/ModifyFile.py:305-343 | On the skeleton written for a file that does not parse, the update writes `category_rankings` with the new category, holding the name and the current rank, ahead of the empty `category`. |
| CurrentEntries.RankAnchor | sitebuilder_interaction_tasks/ModifyFile.py:317-343 | The new rank's parent is a node of the tree. |
| CurrentEntries.UpdateRanking | sitebuilder_interaction_tasks/ModifyFile.py:316-346 | The update raises KeyError exactly when some current rank has no `year`. Otherwise it always writes. |
| CurrentEntries.NewRankOnlyYear | sitebuilder_interaction_tasks/ModifyFile.py:325-331 | The new rank is current only for the target year. |
| CurrentEntries.NewCategoryOnlyYear | sitebuilder_interaction_tasks/ModifyFile.py:333-338 | The new category holds exactly one current rank, at index 1, for the target year. |
| CurrentEntries.UpdateRankingAnchor | sitebuilder_interaction_tasks/ModifyFile.py:343 | Under an existing category, the new rank goes at index 1 (the parent has the name child, so index 1 is in range). |
| CurrentEntries.UpdateRankingNewEntry | sitebuilder_interaction_tasks/ModifyFile.py:330-343 | The new rank, with rank text, `current='true'` and the target year, is at index 1 of the named element's parent, or at [0, 1] inside the new first category. |
| CurrentEntries.UpdateRankingDemotes | sitebuilder_interaction_tasks/ModifyFile.py:320-323 | Every rank that was current for another year, anywhere below the root, gets `current='false'`. Every other node keeps its label. |
| CurrentEntries.UpdateRankingOnlyYear | sitebuilder_interaction_tasks/ModifyFile.py:320-343 | Afterwards every current rank is for the target year. |
| CurrentEntries.UpdateRankingCurrentEntries | sitebuilder_interaction_tasks/ModifyFile.py:320-343 | Every current rank afterwards is either the new one or, with the same label, an entry that was already current for the target year. |
| CurrentEntries.NewRankPathInside | sitebuilder_interaction_tasks/ModifyFile.py:338-343 | The new rank's path lies inside the inserted element. |
| CurrentEntries.UpdatedYearsPresent | sitebuilder_interaction_tasks/ModifyFile.py:325-343 | A written rankings document can be updated again without a KeyError. |
| CurrentEntries.UpdateRankingTwice | sitebuilder_interaction_tasks/ModifyFile.py:320-343 | After two runs for the same year there are two distinct current ranks for that year. The update is not idempotent. |
| CurrentEntries.ImpactFactorAnchor | sitebuilder_interaction_tasks/ModifyFile.py:365-384 | The anchor is missing exactly when there is no current entry and no ImpactFactors container. A present anchor is a node. |
| CurrentEntries.UpdateImpactFactor | sitebuilder_interaction_tasks/ModifyFile.py:365-386 | The update raises exactly when a current entry has no `year` or there is nowhere to insert. Otherwise it writes. |
| CurrentEntries.NewImpactFactorOnlyYear | sitebuilder_interaction_tasks/ModifyFile.py:360-379 | The new entry is current only for the target year. |
| CurrentEntries.UpdateImpactFactorNewEntry | sitebuilder_interaction_tasks/ModifyFile.py:373-384 | The new entry, with `OneYear` then `FiveYear`, is the first child of its anchor. |
| CurrentEntries.UpdateImpactFactorDemotes | sitebuilder_interaction_tasks/ModifyFile.py:368-371 | Every impact factor that was current for another year gets `current='false'`. Every other node keeps its label. |
| CurrentEntries.UpdateImpactFactorOnlyYear | sitebuilder_interaction_tasks/ModifyFile.py:368-384 | Afterwards every current impact factor is for the target year. |
| ModifyFile.SecondsField | sitebuilder_interaction_tasks/ModifyFile.py:21-26 | `timedelta.seconds` is under a day. For ages under a day it is the whole number of seconds. |
| ModifyFile.SelectSourceAsWritten | sitebuilder_interaction_tasks/ModifyFile.py:29-34 | The result is one of the two paths, and it is the original when the new file does not exist. |
| ModifyFile.SelectSource | sitebuilder_interaction_tasks/ModifyFile.py:29-34 | The same, for the corrected age test. |
| ModifyFile.SelectSourceAgreesWithinADay | sitebuilder_interaction_tasks/ModifyFile.py:26-30 | Both age tests agree for files written within the last day. |
| ModifyFile.SelectSourceMonotone | sitebuilder_interaction_tasks/ModifyFile.py:29-31 | With the corrected test, a new file young enough to be read was also young enough at every earlier moment. |
| ModifyFile.StaleNewFileSelected | sitebuilder_interaction_tasks/ModifyFile.py:26-30 | As written, a new file one day and five seconds old is read while a 100-second-old one is not. The corrected test rejects the older one. |
| ModifyFile.Document.constructor | sitebuilder_interaction_tasks/ModifyFile.py:45-46 | The document holds the parsed tree. |
| ModifyFile.Document.Insert | sitebuilder_interaction_tasks/ModifyFile.py:59-60 | `insert(i, x)` on the node at `p` gives it the child list from `InsertChild` and updates the tree by `InsertAt`. |
| ModifyFile.Document.SetAttribute | sitebuilder_interaction_tasks/ModifyFile.py:323 | Attribute assignment updates the tree by `SetAttr`. |
| ModifyFile.Document.DemoteStale | sitebuilder_interaction_tasks/ModifyFile.py:320-323 | The loop succeeds exactly when every current entry has a `year`, and then the tree is the demoted one. Otherwise it stops at the first entry without one, with the entries before it demoted. |
| ModifyFile.Document.AddTopLevelWidget | sitebuilder_interaction_tasks/ModifyFile.py:44-74 | The outcome is `Scaffold.AddTopLevelWidget` of the tree. A written outcome is the new tree; otherwise the tree is unchanged. |
| ModifyFile.Document.ModifyRow | sitebuilder_interaction_tasks/ModifyFile.py:84-138 | The outcome is that of the corrected row (`ProcessRow`) on the tree; `ProcessRowAgrees` gives the outcome as written wherever there is a MainContent block. A failed settings step leaves the placement inserted, and a skipped or unreadable row leaves the tree alone. |
| ModifyFile.Document.TrendMdWidget | sitebuilder_interaction_tasks/ModifyFile.py:240-290 | The outcome is `TrendMd.TrendMdWidget` of the tree. On failure the tree holds the removals, plus the widget when the failure came after it. |
| ModifyFile.Document.UpdateRanking | sitebuilder_interaction_tasks/ModifyFile.py:293-346 | The outcome is `CurrentEntries.UpdateRanking` of the tree. On a KeyError the demotion stopped at the first current rank without a `year`, with the ranks before it demoted. |
| ModifyFile.Document.UpdateImpactFactor | sitebuilder_interaction_tasks/ModifyFile.py:349-386 | The outcome is `CurrentEntries.UpdateImpactFactor` of the tree. On a KeyError the demotion stopped at the first current entry without a `year`. A missing container is found only after the full demotion. |
| ModifyFile.RankingsFile.constructor | sitebuilder_interaction_tasks/ModifyFile.py:301 | The file holds what parsing it gives. |
| ModifyFile.RankingsFile.Load | sitebuilder_interaction_tasks/ModifyFile.py:297-312 | The loop returns `RankingsDocument` of the parse. A file that did not parse now holds the skeleton. |
| ModifyFile.HaltedHere | sitebuilder_interaction_tasks/ModifyFile.py:322 | A missing `year` at some entry halts the loop there. |
| ModifyFile.HaltsAtUnique | sitebuilder_interaction_tasks/ModifyFile.py:321-322 | Only one entry is the first current entry without a `year`, the one where the loop raises KeyError. |
| ModifyFile.HaltedUnique | sitebuilder_interaction_tasks/ModifyFile.py:321-323 | The state the loop leaves on a KeyError is determined by the document: any two halted states agree on every node. |
| ModifyFile.StepDemotes | sitebuilder_interaction_tasks/ModifyFile.py:322-323 | Setting `current='false'` on an entry of another year extends the demoted prefix by that entry. |
| ModifyFile.StepKeeps | sitebuilder_interaction_tasks/ModifyFile.py:322 | An entry for the target year is left as it is. |
| ModifyFile.AllDemoted | sitebuilder_interaction_tasks/ModifyFile.py:320-323 | Once every entry has been visited, the tree is the document-wide demotion. |
| Sites.Join | sitebuilder_interaction_tasks/FileToUpdate.py:15-16 | `join(a, b)` is `b` for an absolute `b`. Otherwise it is `a`, with a separator if needed, followed by `b`. |
| Sites.FileNameStart | sitebuilder_interaction_tasks/FileToUpdate.py:15 | The file name is absolute exactly when the shortcode is. |
| Sites.FilePaths | sitebuilder_interaction_tasks/FileToUpdate.py:15-16 | The paths are `<dir>/original/<sc>_<ext>` and `<dir>/new/<sc>_<ext>`. They share the file name and differ. |
| Sites.AbsoluteShortcodeCollides | sitebuilder_interaction_tasks/FileToUpdate.py:15-16 | A shortcode starting with `/` makes both paths the bare file name. |
| Sites.Registry.constructor | sitebuilder_interaction_tasks/FileToUpdate.py:8 | The shared table starts empty. |
| Sites.FileToUpdate.constructor | sitebuilder_interaction_tasks/FileToUpdate.py:11-18 | The shortcode and extension are stored unchanged and both paths are set. The table maps the shortcode to the new object, replacing any earlier entry whatever its extension, with every other entry unchanged. |
| Sites.FileTypeTable | sitebuilder_interaction_tasks/SitebuilderSite.py:10-15 | The conversion table has exactly four entries, with the four source names. |
| Sites.SiteUrl | sitebuilder_interaction_tasks/SitebuilderSite.py:20-23 | Every site URL lies under the sitebuilder root. |
| Sites.ShortcodeOfSiteUrl | sitebuilder_interaction_tasks/SitebuilderSite.py:20-23 | The shortcode can be read back from the URL: `umbrella` from the publishing-id URL, any other from the `urlprefix` one. |
| Sites.SiteUrlInjective | sitebuilder_interaction_tasks/SitebuilderSite.py:20-23 | No two shortcodes share a URL. The URL depends on the shortcode alone. |
| Sites.SitebuilderSite.constructor | sitebuilder_interaction_tasks/SitebuilderSite.py:17-23 | Building a site runs the `FileToUpdate` constructor, which sets the paths and maps the shortcode to that `FileToUpdate` part in the shared table, and sets `site_url` by the rule. |

## Left out

- Parsing and writing documents, `getmtime`, `exists` and `sleep(2)` are I/O. The tree, the parse result, the file's age and its existence are parameters. A written outcome stands for `tree.write`.
- The row loop of `modify_xml` re-reads the file for every row, and which file depends on the clock. Only one row's body is modelled (`Document.ModifyRow`).
- `update_ppv` is a function nested inside `update_current_years_if`, so the class has no such method. It also uses the undefined names `ET` and `title`, so it is not modelled.
- `float(...)` formatting of the impact factors (floating point). The two values are already-formatted strings.
- `datetime.now()`: the target year is a parameter.
- The XPath engine is replaced by `Query`. XPath string quoting, including a ranking name containing a quote, is not modelled.
- `text()` is matched against an element's own text only; tails are not modelled.
- Comments and processing instructions among children are not modelled.
- `tqdm.write` logging is not modelled, except where it raises (see Findings).
- `ModifyFile.Document.ModifyRow`: follows the corrected handler (`ProcessRow`). As written, a row for a document without a MainContent block raises (`ProcessRowAsWritten`, see Findings).
- The ranking `rank` is a parameter already formatted as a string (`f"{rank}"`).
- A request row is an ordered list of (column, cell) pairs whose column names are distinct, as the keys of the dictionary are. `Lookup` reads the first matching column and `Without` removes every one.
- A cell is null, a string, a boolean or an integer. pandas reads a numeric column with blank cells as floating point (`10.0`, and `0.0` is false-like at ModifyFile.py:220); floating-point cells are not represented.
- `Document.TrendMdWidget`: applies the three removals in one step (`RemoveSet`), not one after the other. For distinct nodes of one tree, the document that results is the same either way.
- `Document.TrendMdWidget`: an insert into a right rail block that was itself removed changes a detached subtree. The model shows only the document.
- `TrendMd.WithWidgetCovers`: names a surviving node by its label, not by its original path, so two kept nodes with identical subtrees are not told apart after the insert. The path of each kept node after the removals is given by `TrendMd.AfterRemovalsCovers`.
- `TrendMd.WithSettingsCovers`: the same label-level statement after the settings insert.
- `TrendMd.TrendMdWidgetCovers`: the same label-level statement for the written document. It does not by itself show that the removed RelatedContent widget is gone when an identical one is kept; that is shown at the removal step by `TrendMd.AfterRemovalsCovers` and `TrendMd.RemovedNotKept`.
- `Sites.SitebuilderSite.constructor`: the subclass is modelled as a site that holds its `FileToUpdate` part. The table therefore maps the shortcode to that part, not to the site object.
- `sitebuilder_root` is a placeholder string in the repository and is kept as such.
- SitebuilderInteraction.py (HTTP upload and publish), AutomatedContentListings.py (spreadsheet ingestion) and the terminal menu are not part of this model.

## Findings

| source | as written | input that shows it | evidently intended | confidence | as-written member | corrected member |
|---|---|---|---|---|---|---|
| sitebuilder_interaction_tasks/ModifyFile.py:26 | The age of the new file is `timedelta.seconds`, which drops whole days. | A new file last written 86405 seconds ago counts as 5 seconds old and is read instead of the original. | The total age (`total_seconds()`) is compared with 60 seconds. | high; not executed | ModifyFile.SelectSourceAsWritten (ModifyFile.StaleNewFileSelected) | ModifyFile.SelectSource (ModifyFile.SelectSourceMonotone) |
| sitebuilder_interaction_tasks/ModifyFile.py:133 | The handler calls `tqdm.write(message, str(e))`, which passes the error text as the output file. Writing to it raises AttributeError, which ends `modify_xml`. | A document with a WidgetSettings section and no MainContent block: the row raises instead of adding its settings. | The failure at the placement insert is only logged, and the settings are still inserted. | high; not executed | AclRequests.InsertWidgetAsWritten (AclRequests.MissingBlockAbortsRow) | AclRequests.InsertWidget (AclRequests.InsertWidgetSettings) |
