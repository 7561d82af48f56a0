/** `FileToUpdate` and `SitebuilderSite`: the two file paths of a journal's
    document, the shared shortcode table, and the editing URL of the site. */
module Sites {
  import opened Wrappers

  const Separator: char := '/'

  /** `posixpath.join(a, b)`: an absolute `b` replaces `a`; otherwise `b` is
      appended, with a separator unless `a` is empty or already ends in one. */
  function Join(a: string, b: string): (r: string)
    ensures |b| > 0 && b[0] == Separator ==> r == b
    ensures !(|b| > 0 && b[0] == Separator) ==> r == DirPrefix(a) + b
  {
    if |b| > 0 && b[0] == Separator then b
    else if |a| == 0 || a[|a| - 1] == Separator then a + b
    else a + [Separator] + b
  }

  /** `a` as the directory part of a joined path. */
  function DirPrefix(a: string): string {
    if |a| == 0 || a[|a| - 1] == Separator then a else a + [Separator]
  }

  /** `<shortcode>_<extension>`. */
  function FileName(shortcode: string, extension: string): string {
    shortcode + "_" + extension
  }

  function OriginalFilePath(currentDir: string, shortcode: string, extension: string): string {
    Join(Join(currentDir, "original"), FileName(shortcode, extension))
  }

  function NewFilePath(currentDir: string, shortcode: string, extension: string): string {
    Join(Join(currentDir, "new"), FileName(shortcode, extension))
  }

  predicate Absolute(name: string) {
    |name| > 0 && name[0] == Separator
  }

  lemma FileNameStart(shortcode: string, extension: string)
    ensures Absolute(FileName(shortcode, extension)) <==> Absolute(shortcode)
  {
    if |shortcode| > 0 {
      assert FileName(shortcode, extension)[0] == shortcode[0];
    } else {
      assert FileName(shortcode, extension)[0] == '_';
    }
  }

  /** For a shortcode that is not an absolute path, the two paths are the
      current directory's `original/` and `new/` entries for the same file
      name, and so they differ. */
  lemma FilePaths(currentDir: string, shortcode: string, extension: string)
    requires !Absolute(shortcode)
    ensures var name := FileName(shortcode, extension);
      && OriginalFilePath(currentDir, shortcode, extension) == DirPrefix(currentDir) + "original/" + name
      && NewFilePath(currentDir, shortcode, extension) == DirPrefix(currentDir) + "new/" + name
      && OriginalFilePath(currentDir, shortcode, extension) != NewFilePath(currentDir, shortcode, extension)
  {
    var name := FileName(shortcode, extension);
    var d := DirPrefix(currentDir);
    FileNameStart(shortcode, extension);
    assert Join(currentDir, "original") == d + "original";
    assert Join(currentDir, "new") == d + "new";
    assert Join(d + "original", name) == d + "original" + [Separator] + name;
    assert Join(d + "new", name) == d + "new" + [Separator] + name;
    var o, n := d + "original/" + name, d + "new/" + name;
    assert o[|d|] == 'o' && n[|d|] == 'n';
  }

  /** A shortcode that is an absolute path makes `join` drop both directories:
      the two paths coincide. */
  lemma AbsoluteShortcodeCollides(currentDir: string, shortcode: string, extension: string)
    requires Absolute(shortcode)
    ensures OriginalFilePath(currentDir, shortcode, extension) == FileName(shortcode, extension)
    ensures NewFilePath(currentDir, shortcode, extension) == FileName(shortcode, extension)
  {
    FileNameStart(shortcode, extension);
  }

  /** The class-level `files_dict`, shared by every instance. */
  class Registry {
    var files: map<string, FileToUpdate>

    constructor()
      ensures files == map[]
    {
      files := map[];
    }
  }

  class FileToUpdate {
    const journalShortcode: string
    const fileExtension: string
    const originalFilePath: string
    const newFilePath: string

    /** `FileToUpdate(journal_shortcode, file_extension)`, with `abspath("")`
        passed in as `currentDir`. The new object replaces any earlier entry
        for the shortcode, whatever its extension. */
    constructor(registry: Registry, currentDir: string, shortcode: string, extension: string)
      modifies registry
      ensures journalShortcode == shortcode && fileExtension == extension
      ensures originalFilePath == OriginalFilePath(currentDir, shortcode, extension)
      ensures newFilePath == NewFilePath(currentDir, shortcode, extension)
      ensures registry.files == old(registry.files)[shortcode := this]
    {
      journalShortcode := shortcode;
      fileExtension := extension;
      originalFilePath := OriginalFilePath(currentDir, shortcode, extension);
      newFilePath := NewFilePath(currentDir, shortcode, extension);
      new;
      registry.files := registry.files[shortcode := this];
    }
  }

  // ---------------------------------------------------------------------
  // SitebuilderSite

  /** `sitebuilder_root`, a placeholder in the repository. */
  const SitebuilderRoot := "<sitebuilder root>"
  const UmbrellaShortcode := "umbrella"
  const EditSite := "/edit-site?"
  /** The publishing id of the umbrella site. */
  const UmbrellaId := "f60a5800-41b4-48a1-8cb9-8aafe7624b45"
  const UmbrellaQuery := "publishingid=" + UmbrellaId
  const PrefixQuery := "urlprefix="

  /** `file_type_sb_url_conversion`. */
  const FileTypeToUrl: map<string, string> := map[
    "config.xml" := "SiteCore",
    "data.xml" := "SiteDataCore",
    "subs_pricing.txt" := "SiteDataCoreSubscriptionPricing",
    "rankings.txt" := "SiteDataCoreRankings"]

  lemma FileTypeTable()
    ensures FileTypeToUrl.Keys == {"config.xml", "data.xml", "subs_pricing.txt", "rankings.txt"}
    ensures |FileTypeToUrl| == 4
    ensures FileTypeToUrl["config.xml"] == "SiteCore" && FileTypeToUrl["data.xml"] == "SiteDataCore"
    ensures FileTypeToUrl["subs_pricing.txt"] == "SiteDataCoreSubscriptionPricing"
    ensures FileTypeToUrl["rankings.txt"] == "SiteDataCoreRankings"
  {
    assert |FileTypeToUrl.Keys| == 4;
  }

  /** The `site_url` rule: a fixed publishing id for the umbrella site, the
      shortcode as URL prefix for every other site. */
  function SiteUrl(shortcode: string): (url: string)
    ensures |url| > |SitebuilderRoot| && url[..|SitebuilderRoot|] == SitebuilderRoot
  {
    if shortcode == UmbrellaShortcode then SitebuilderRoot + EditSite + UmbrellaQuery
    else SitebuilderRoot + EditSite + PrefixQuery + shortcode
  }

  /** Reads the shortcode back from a site URL. */
  function ShortcodeOf(url: string): Option<string> {
    var p := SitebuilderRoot + EditSite + PrefixQuery;
    if url == SitebuilderRoot + EditSite + UmbrellaQuery then Some(UmbrellaShortcode)
    else if |url| >= |p| && url[..|p|] == p then Some(url[|p|..])
    else None
  }

  /** The shortcode can be read back from its URL. */
  lemma {:induction false} ShortcodeOfSiteUrl(shortcode: string)
    ensures ShortcodeOf(SiteUrl(shortcode)) == Some(shortcode)
  {
    var p := SitebuilderRoot + EditSite + PrefixQuery;
    var u := SitebuilderRoot + EditSite + UmbrellaQuery;
    if shortcode != UmbrellaShortcode {
      var url := p + shortcode;
      var k := |SitebuilderRoot + EditSite|;
      assert url[k] == PrefixQuery[0] == 'u';
      assert u[k] == UmbrellaQuery[0] == "publishingid="[0] == 'p';
      assert url[..|p|] == p && url[|p|..] == shortcode;
    }
  }

  /** No two sites share an editing URL. */
  lemma SiteUrlInjective(a: string, b: string)
    requires SiteUrl(a) == SiteUrl(b)
    ensures a == b
  {
    ShortcodeOfSiteUrl(a);
    ShortcodeOfSiteUrl(b);
  }

  /** A site: the file to update, registered like any other, and its URL. The
      subclass is modelled as a site holding its FileToUpdate part. */
  class SitebuilderSite {
    const file: FileToUpdate
    const siteUrl: string

    constructor(registry: Registry, currentDir: string, shortcode: string, extension: string)
      modifies registry
      ensures fresh(file)
      ensures file.journalShortcode == shortcode && file.fileExtension == extension
      ensures file.originalFilePath == OriginalFilePath(currentDir, shortcode, extension)
      ensures file.newFilePath == NewFilePath(currentDir, shortcode, extension)
      ensures registry.files == old(registry.files)[shortcode := file]
      ensures siteUrl == SiteUrl(shortcode)
    {
      file := new FileToUpdate(registry, currentDir, shortcode, extension);
      siteUrl := SiteUrl(shortcode);
    }
  }
}
