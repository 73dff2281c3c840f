/**
 * `ThemeHigh_Admin_Plugin_Utils`: which installed plugin file belongs to a
 * slug, the plugin's status, the activate/deactivate links, slug validation
 * and the filter that picks out ThemeHigh's own plugins.
 *
 * WordPress's `get_plugins()` is a parameter: the installed plugins in array
 * order, each a plugin file (the array key) with its header data.
 * `is_plugin_active` is the set of active plugin files.
 */
module PluginUtils {
  import opened Wrappers
  import Php

  /** The headers of an installed plugin that the vendor filter reads; `None` when the header is absent. */
  datatype PluginData = PluginData(name: string, author: Option<string>, pluginUri: Option<string>)

  /** One entry of `get_plugins()`: plugin file => header data. */
  datatype InstalledPlugin = InstalledPlugin(file: string, data: PluginData)

  /** Array keys are distinct. */
  predicate DistinctFiles(plugins: seq<InstalledPlugin>) {
    forall i, j :: 0 <= i < j < |plugins| ==> plugins[i].file != plugins[j].file
  }

  // ---------------------------------------------------------------------
  // is_plugin_installed

  /** The three tests, in order: directory equals the slug, file under `slug/`, file `slug.php`. */
  predicate MatchesSlug(file: string, slug: string) {
    || Php.DirName(file) == slug
    || Php.StartsWith(file, slug + "/")
    || file == slug + ".php"
  }

  /** The file of the first installed plugin that passes a test on the file name. */
  function FirstFileWhere(plugins: seq<InstalledPlugin>, test: string -> bool): (r: Option<string>)
    ensures r.Some? ==> exists i :: 0 <= i < |plugins| && plugins[i].file == r.value && test(r.value)
                          && forall j :: 0 <= j < i ==> !test(plugins[j].file)
    ensures r.None? <==> forall j :: 0 <= j < |plugins| ==> !test(plugins[j].file)
  {
    if plugins == [] then None
    else if test(plugins[0].file) then Some(plugins[0].file)
    else
      var r := FirstFileWhere(plugins[1..], test);
      assert r.Some? ==> exists i :: 1 <= i < |plugins| && plugins[i].file == r.value && test(r.value)
                          && forall j :: 0 <= j < i ==> !test(plugins[j].file) by {
        if r.Some? {
          var i :| 0 <= i < |plugins[1..]| && plugins[1..][i].file == r.value && test(r.value)
                   && forall j :: 0 <= j < i ==> !test(plugins[1..][j].file);
          assert plugins[i + 1] == plugins[1..][i];
          forall j | 0 <= j < i + 1 ensures !test(plugins[j].file) {
            if j > 0 {
              assert plugins[j] == plugins[1..][j - 1];
            }
          }
        }
      }
      assert r.None? ==> forall j :: 0 <= j < |plugins| ==> !test(plugins[j].file) by {
        if r.None? {
          forall j | 0 <= j < |plugins| ensures !test(plugins[j].file) {
            if j > 0 {
              assert plugins[j] == plugins[1..][j - 1];
            }
          }
        }
      }
      r
  }

  /** The first installed file that matches the slug. */
  function FirstMatch(plugins: seq<InstalledPlugin>, slug: string): (r: Option<string>)
    ensures r.Some? ==> exists i :: 0 <= i < |plugins| && plugins[i].file == r.value && MatchesSlug(r.value, slug)
                          && forall j :: 0 <= j < i ==> !MatchesSlug(plugins[j].file, slug)
    ensures r.None? <==> forall j :: 0 <= j < |plugins| ==> !MatchesSlug(plugins[j].file, slug)
  {
    FirstFileWhere(plugins, file => MatchesSlug(file, slug))
  }

  /** What `is_plugin_installed` returns: `None` stands for `false`. */
  function InstalledFile(plugins: seq<InstalledPlugin>, slug: string): Option<string> {
    if Php.Falsy(slug) || plugins == [] then None else FirstMatch(plugins, slug)
  }

  /** `is_plugin_installed`: the search loop with its early returns. */
  method IsPluginInstalled(plugins: seq<InstalledPlugin>, slug: string) returns (r: Option<string>)
    ensures r == InstalledFile(plugins, slug)
  {
    if Php.Falsy(slug) {
      return None;
    }
    if plugins == [] {
      return None;
    }
    var i := 0;
    while i < |plugins|
      invariant 0 <= i <= |plugins|
      invariant FirstMatch(plugins[i..], slug) == FirstMatch(plugins, slug)
    {
      var pluginFile := plugins[i].file;
      assert plugins[i..][0] == plugins[i] && plugins[i..][1..] == plugins[i + 1..];
      if Php.DirName(pluginFile) == slug {
        return Some(pluginFile);
      }
      if Php.StartsWith(pluginFile, slug + "/") {
        return Some(pluginFile);
      }
      if pluginFile == slug + ".php" {
        return Some(pluginFile);
      }
      i := i + 1;
    }
    return None;
  }

  /**
   * An empty slug (including `"0"`) or an empty plugin list gives `false`;
   * otherwise the result is the file of the first installed plugin that
   * matches, and `false` only when none does.
   */
  lemma InstalledFileSpec(plugins: seq<InstalledPlugin>, slug: string)
    ensures Php.Falsy(slug) || plugins == [] ==> InstalledFile(plugins, slug) == None
    ensures InstalledFile(plugins, slug).Some? ==>
      exists i :: 0 <= i < |plugins| && plugins[i].file == InstalledFile(plugins, slug).value
        && MatchesSlug(plugins[i].file, slug)
        && forall j :: 0 <= j < i ==> !MatchesSlug(plugins[j].file, slug)
    ensures !Php.Falsy(slug) && InstalledFile(plugins, slug).None? ==>
      forall j :: 0 <= j < |plugins| ==> !MatchesSlug(plugins[j].file, slug)
  {
  }

  /** Every file under the slug's directory, however deep, and the single file `slug.php` match the slug. */
  lemma NestedAndSingleFileMatch(slug: string, rest: string)
    ensures MatchesSlug(slug + "/" + rest, slug)
    ensures MatchesSlug(slug + ".php", slug)
  {
    assert (slug + "/" + rest)[..|slug + "/"|] == slug + "/";
  }

  // ---------------------------------------------------------------------
  // is_plugin_active, get_plugin_status, the action links

  /** `is_plugin_active`: an empty file is never active. */
  predicate IsPluginActive(file: string, active: set<string>) {
    !Php.Falsy(file) && file in active
  }

  datatype Status = NotInstalled | Installed | Active

  /** `get_plugin_status`. A matched file that PHP reads as false counts as not installed. */
  function PluginStatus(plugins: seq<InstalledPlugin>, active: set<string>, slug: string): Status {
    match InstalledFile(plugins, slug)
    case None => NotInstalled
    case Some(file) =>
      if Php.Falsy(file) then NotInstalled
      else if IsPluginActive(file, active) then Active
      else Installed
  }

  /**
   * The status is `Active` exactly when a matching file was found and it is
   * active, `Installed` when one was found and it is not, and `NotInstalled`
   * when none was found.
   */
  lemma PluginStatusSpec(plugins: seq<InstalledPlugin>, active: set<string>, slug: string)
    ensures var s := PluginStatus(plugins, active, slug); var f := InstalledFile(plugins, slug);
      && (s == Active <==> f.Some? && !Php.Falsy(f.value) && f.value in active)
      && (s == Installed <==> f.Some? && !Php.Falsy(f.value) && f.value !in active)
      && (s == NotInstalled <==> f.None? || Php.Falsy(f.value))
    ensures PluginStatus(plugins, active, slug) != NotInstalled ==>
      exists i :: 0 <= i < |plugins| && MatchesSlug(plugins[i].file, slug)
  {
    InstalledFileSpec(plugins, slug);
  }

  /**
   * A link WordPress protects with a nonce: `plugins.php?action=<action>&plugin=<file>`
   * with nonce action `<action>-plugin_<file>`.
   */
  datatype ActionLink = ActionLink(action: string, plugin: string, nonceAction: string)

  function PluginActionLink(action: string, file: string): (l: ActionLink)
    ensures l.action == action && l.plugin == file
    ensures l.nonceAction == action + "-plugin_" + file
  {
    ActionLink(action, file, action + "-plugin_" + file)
  }

  /** `get_activation_url`: `None` (false) for an empty or an active file. */
  function ActivationUrl(file: string, active: set<string>): Option<ActionLink> {
    if Php.Falsy(file) then None
    else if IsPluginActive(file, active) then None
    else Some(PluginActionLink("activate", file))
  }

  /** `get_deactivation_url`: `None` (false) for an empty or an inactive file. */
  function DeactivationUrl(file: string, active: set<string>): Option<ActionLink> {
    if Php.Falsy(file) then None
    else if !IsPluginActive(file, active) then None
    else Some(PluginActionLink("deactivate", file))
  }

  /**
   * For an empty file neither link exists; for any other file exactly one does:
   * activation for an inactive file, deactivation for an active one.
   */
  lemma ExactlyOneActionLink(file: string, active: set<string>)
    ensures Php.Falsy(file) ==> ActivationUrl(file, active).None? && DeactivationUrl(file, active).None?
    ensures !Php.Falsy(file) ==> ActivationUrl(file, active).Some? != DeactivationUrl(file, active).Some?
    ensures ActivationUrl(file, active).Some? <==> !Php.Falsy(file) && file !in active
    ensures DeactivationUrl(file, active).Some? <==> !Php.Falsy(file) && file in active
  {
  }

  // ---------------------------------------------------------------------
  // is_valid_slug

  predicate SlugChar(c: char) {
    'a' <= c <= 'z' || 'A' <= c <= 'Z' || '0' <= c <= '9' || c == '_' || c == '-'
  }

  predicate AllSlugChars(s: string) {
    forall i :: 0 <= i < |s| ==> SlugChar(s[i])
  }

  /**
   * `preg_match('/^[a-zA-Z0-9_-]+$/', s) === 1`. Without the `D` modifier PCRE's
   * `$` also matches just before a final newline, so one trailing `"\n"` is
   * admitted after the slug characters.
   */
  predicate MatchesSlugPattern(s: string) {
    || (|s| > 0 && AllSlugChars(s))
    || (|s| > 1 && s[|s| - 1] == '\n' && AllSlugChars(s[..|s| - 1]))
  }

  /** `is_valid_slug`, as written. */
  predicate IsValidSlug(slug: string) {
    !Php.Falsy(slug) && MatchesSlugPattern(slug)
  }

  /** The documented rule: a non-empty slug of letters, digits, `_` and `-`, which PHP does not read as empty. */
  predicate IsValidSlugStrict(slug: string) {
    !Php.Falsy(slug) && |slug| > 0 && AllSlugChars(slug)
  }

  /** As written, a slug followed by one newline passes, although a newline is no slug character. */
  lemma TrailingNewlineAccepted()
    ensures IsValidSlug("my-plugin\n")
    ensures !SlugChar('\n')
    ensures !IsValidSlugStrict("my-plugin\n")
  {
    assert "my-plugin\n"[..|"my-plugin\n"| - 1] == "my-plugin";
    assert !AllSlugChars("my-plugin\n") by {
      assert !SlugChar("my-plugin\n"[9]);
    }
  }

  /**
   * The strict check accepts exactly the non-empty strings of slug characters
   * other than `"0"`; it differs from the one as written only on strings
   * ending in a newline.
   */
  lemma ValidSlugStrictSpec(slug: string)
    ensures IsValidSlugStrict(slug) <==> slug != "" && slug != "0" && forall c :: c in slug ==> SlugChar(c)
    ensures IsValidSlugStrict(slug) ==> IsValidSlug(slug)
    ensures IsValidSlug(slug) && !IsValidSlugStrict(slug) ==> slug[|slug| - 1] == '\n'
  {
    if forall c :: c in slug ==> SlugChar(c) {
      assert AllSlugChars(slug);
    }
    if AllSlugChars(slug) {
      forall c | c in slug ensures SlugChar(c) {
        var i :| 0 <= i < |slug| && slug[i] == c;
      }
    }
  }

  /** `"0"` matches the pattern but PHP reads it as empty, so it is rejected. */
  lemma ZeroSlugRejected()
    ensures MatchesSlugPattern("0") && !IsValidSlug("0")
  {
  }

  // ---------------------------------------------------------------------
  // get_themehigh_plugins

  /** A header, lower-cased, or `""` when absent. */
  function LowerHeader(header: Option<string>): string {
    match header
    case None => ""
    case Some(h) => Php.ToLower(h)
  }

  /** The vendor test: the lower-cased author or plugin URI contains "themehigh". */
  predicate IsThemeHighPlugin(data: PluginData) {
    Php.Contains(LowerHeader(data.author), "themehigh") || Php.Contains(LowerHeader(data.pluginUri), "themehigh")
  }

  /** The installed plugins that pass the vendor test, in array order. */
  function ThemeHighPlugins(plugins: seq<InstalledPlugin>): seq<InstalledPlugin> {
    if plugins == [] then []
    else
      var last := plugins[|plugins| - 1];
      ThemeHighPlugins(plugins[..|plugins| - 1]) + (if IsThemeHighPlugin(last.data) then [last] else [])
  }

  /** `get_themehigh_plugins`: the loop that accumulates the matching entries. */
  method GetThemeHighPlugins(plugins: seq<InstalledPlugin>) returns (r: seq<InstalledPlugin>)
    ensures r == ThemeHighPlugins(plugins)
  {
    r := [];
    var i := 0;
    while i < |plugins|
      invariant 0 <= i <= |plugins|
      invariant r == ThemeHighPlugins(plugins[..i])
    {
      assert plugins[..i + 1][..i] == plugins[..i];
      if IsThemeHighPlugin(plugins[i].data) {
        r := r + [plugins[i]];
      }
      i := i + 1;
    }
    assert plugins[..i] == plugins;
  }

  /**
   * The result keeps exactly the entries that pass the vendor test, with file
   * and data unchanged.
   */
  lemma {:induction false} ThemeHighPluginsMembers(plugins: seq<InstalledPlugin>)
    ensures forall p :: p in ThemeHighPlugins(plugins) <==> p in plugins && IsThemeHighPlugin(p.data)
    ensures |ThemeHighPlugins(plugins)| <= |plugins|
  {
    if plugins != [] {
      var init, last := plugins[..|plugins| - 1], plugins[|plugins| - 1];
      ThemeHighPluginsMembers(init);
      assert plugins == init + [last];
    }
  }

  /** Files stay distinct, so the result is again a well-formed plugin array. */
  lemma {:induction false} ThemeHighPluginsDistinct(plugins: seq<InstalledPlugin>)
    requires DistinctFiles(plugins)
    ensures DistinctFiles(ThemeHighPlugins(plugins))
  {
    if plugins != [] {
      var init, last := plugins[..|plugins| - 1], plugins[|plugins| - 1];
      assert DistinctFiles(init);
      ThemeHighPluginsDistinct(init);
      ThemeHighPluginsMembers(init);
      var ri := ThemeHighPlugins(init);
      var r := ThemeHighPlugins(plugins);
      assert r == ri + (if IsThemeHighPlugin(last.data) then [last] else []);
      forall i, j | 0 <= i < j < |r| ensures r[i].file != r[j].file {
        if j < |ri| {
          assert r[i] == ri[i] && r[j] == ri[j];
        } else {
          assert r[i] == ri[i] && ri[i] in ri && r[j] == last;
          var k :| 0 <= k < |init| && init[k] == ri[i];
          assert plugins[k] == ri[i];
        }
      }
    }
  }

  /** The test ignores case: "ThemeHigh" in the author header is enough. */
  lemma VendorTestIgnoresCase()
    ensures IsThemeHighPlugin(PluginData("Extra Product Options", Some("ThemeHigh"), None))
  {
    var lower := Php.ToLower("ThemeHigh");
    assert lower == "themehigh";
    assert Php.OccursAt(lower, "themehigh", 0);
  }
}
