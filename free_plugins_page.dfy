/**
 * `ThemeHigh_Admin_Free_Plugins_Page`: the catalogue of ThemeHigh's free
 * plugins from WordPress.org, ranked by active installs and rating and kept
 * in a transient for twelve hours, and the state shown on each plugin's card.
 *
 * The HTTP request is a parameter: its outcome is either a transport error or
 * the decoded `plugins` list (`[]` when the key is missing or the body is not
 * JSON). The transient is a field of the `CatalogCache` object; its expiry
 * is WordPress's business, so an expired transient is simply absent.
 */
module FreePluginsPage {
  import opened Wrappers
  import Php
  import StableSort
  import PluginUtils
  import opened WpTime

  const CACHE_EXPIRATION: int := 12 * HOUR_IN_SECONDS
  const TRANSIENT_KEY: string := "themehigh_free_plugins_wp_org"

  /** One plugin of the WordPress.org answer; `None` when the key is absent. */
  datatype CatalogPlugin = CatalogPlugin(slug: string, name: string, activeInstalls: Option<int>, rating: Option<int>)

  function Installs(p: CatalogPlugin): int { p.activeInstalls.GetOr(0) }
  function Rating(p: CatalogPlugin): int { p.rating.GetOr(0) }

  // ---------------------------------------------------------------------
  // sort_plugins_callback

  /** `sort_plugins_callback`: more installs first, then higher rating; missing counts as 0. */
  function SortPluginsCallback(a: CatalogPlugin, b: CatalogPlugin): int {
    var aInstalls := Installs(a);
    var bInstalls := Installs(b);
    if aInstalls == bInstalls then
      var aRating := Rating(a);
      var bRating := Rating(b);
      if bRating > aRating then 1
      else if bRating < aRating then -1
      else 0
    else if bInstalls > aInstalls then 1
    else if bInstalls < aInstalls then -1
    else 0
  }

  /** The intended ranking, stated independently: `a` strictly ahead of `b`. */
  predicate RanksAhead(a: CatalogPlugin, b: CatalogPlugin) {
    Installs(a) > Installs(b) || (Installs(a) == Installs(b) && Rating(a) > Rating(b))
  }

  /**
   * The callback is negative exactly when `a` ranks ahead, positive exactly
   * when `b` does, and zero exactly when installs and rating are both equal.
   */
  lemma CallbackRanks(a: CatalogPlugin, b: CatalogPlugin)
    ensures SortPluginsCallback(a, b) < 0 <==> RanksAhead(a, b)
    ensures SortPluginsCallback(a, b) > 0 <==> RanksAhead(b, a)
    ensures SortPluginsCallback(a, b) == 0 <==> Installs(a) == Installs(b) && Rating(a) == Rating(b)
    ensures SortPluginsCallback(a, b) in {-1, 0, 1}
  {
  }

  /** A plugin without install or rating data ranks like one with 0 of each. */
  lemma MissingCountsAsZero(a: CatalogPlugin, b: CatalogPlugin)
    requires a.activeInstalls.None? && a.rating.None?
    ensures SortPluginsCallback(a, b) == SortPluginsCallback(a.(activeInstalls := Some(0), rating := Some(0)), b)
  {
  }

  /** The callback is antisymmetric and transitive, so the sort it drives is well defined. */
  lemma CallbackIsComparator()
    ensures StableSort.IsComparator(SortPluginsCallback)
  {
    forall a, b ensures SortPluginsCallback(a, b) == -SortPluginsCallback(b, a) {
      CallbackRanks(a, b);
      CallbackRanks(b, a);
    }
    forall a, b, c ensures StableSort.Chain(SortPluginsCallback, a, b, c) {
      CallbackRanks(a, b);
      CallbackRanks(b, c);
      CallbackRanks(a, c);
    }
  }

  /** The catalogue after `uasort`. */
  function RankPlugins(plugins: seq<CatalogPlugin>): seq<CatalogPlugin> {
    StableSort.Sort(plugins, SortPluginsCallback)
  }

  /**
   * The ranked catalogue is a permutation of the answer in which no plugin
   * ranks ahead of an earlier one: installs never increase, and ratings never
   * increase among equal installs.
   */
  lemma RankPluginsSorted(plugins: seq<CatalogPlugin>)
    ensures var r := RankPlugins(plugins);
      && multiset(r) == multiset(plugins)
      && forall i, j :: 0 <= i < j < |r| ==> !RanksAhead(r[j], r[i])
  {
    CallbackIsComparator();
    StableSort.SortSortedPermutation(plugins, SortPluginsCallback);
    var r := RankPlugins(plugins);
    forall i, j | 0 <= i < j < |r| ensures !RanksAhead(r[j], r[i]) {
      CallbackRanks(r[i], r[j]);
    }
  }

  // ---------------------------------------------------------------------
  // get_themehigh_plugins_from_wp_org

  datatype FetchOutcome = TransportError | Answer(plugins: seq<CatalogPlugin>)

  /** The value returned, and what is written to the transient (with the TTL), if anything. */
  datatype Lookup = Lookup(result: seq<CatalogPlugin>, write: Option<seq<CatalogPlugin>>, fetched: bool)

  /** `get_themehigh_plugins_from_wp_org`, given the transient and the outcome the request would have. */
  function CatalogLookup(cached: Option<seq<CatalogPlugin>>, fetch: FetchOutcome): Lookup {
    if cached.Some? then Lookup(cached.value, None, false)
    else match fetch
      case TransportError => Lookup([], None, true)
      case Answer(plugins) =>
        if plugins == [] then Lookup([], None, true)
        else
          var ranked := RankPlugins(plugins);
          Lookup(ranked, Some(ranked), true)
  }

  /**
   * A cache hit is returned as stored, without a request and without a write;
   * a failed request or an empty answer gives `[]` and writes nothing; a
   * successful one writes and returns the ranked answer.
   */
  lemma CatalogLookupSpec(cached: Option<seq<CatalogPlugin>>, fetch: FetchOutcome)
    ensures var l := CatalogLookup(cached, fetch);
      && (cached.Some? ==> l.result == cached.value && l.write.None? && !l.fetched)
      && (cached.None? ==> l.fetched)
      && (cached.None? && (fetch.TransportError? || fetch.plugins == []) ==> l.result == [] && l.write.None?)
      && (cached.None? && fetch.Answer? && fetch.plugins != [] ==>
            && l.write == Some(l.result)
            && multiset(l.result) == multiset(fetch.plugins)
            && forall i, j :: 0 <= i < j < |l.result| ==> !RanksAhead(l.result[j], l.result[i]))
      && (l.write.Some? ==> cached.None? && fetch.Answer? && fetch.plugins != [])
  {
    if fetch.Answer? {
      RankPluginsSorted(fetch.plugins);
    }
  }

  /** A second call right after a successful one is answered from the transient with the same list. */
  lemma SecondLookupHitsCache(fetch: FetchOutcome, again: FetchOutcome)
    requires CatalogLookup(None, fetch).write.Some?
    ensures var first := CatalogLookup(None, fetch);
      CatalogLookup(first.write, again) == Lookup(first.result, None, false)
  {
  }

  /** The transient `themehigh_free_plugins_wp_org`. */
  class CatalogCache {
    var cached: Option<seq<CatalogPlugin>>   // get_transient(): None is false
    var ttl: int                             // expiration of the last set_transient

    constructor ()
      ensures cached == None && ttl == 0
    {
      cached, ttl := None, 0;
    }

    /** The catalogue: answered from the transient, or fetched, ranked and stored for twelve hours. */
    method GetThemeHighPluginsFromWpOrg(fetch: FetchOutcome) returns (plugins: seq<CatalogPlugin>)
      modifies this
      ensures plugins == CatalogLookup(old(cached), fetch).result
      ensures CatalogLookup(old(cached), fetch).write.None? ==> unchanged(this)
      ensures CatalogLookup(old(cached), fetch).write.Some? ==>
        cached == CatalogLookup(old(cached), fetch).write && ttl == CACHE_EXPIRATION
    {
      if cached.Some? {
        return cached.value;
      }
      if fetch.TransportError? {
        return [];
      }
      var data := fetch.plugins;
      if data == [] {
        return [];
      }
      data := RankPlugins(data);
      cached, ttl := Some(data), CACHE_EXPIRATION;
      return data;
    }
  }

  // ---------------------------------------------------------------------
  // is_plugin_installed (the page's own version)

  /** The page's test: directory equals the slug, or the file is `slug/slug.php`. */
  predicate PageMatches(file: string, slug: string) {
    Php.DirName(file) == slug || file == slug + "/" + slug + ".php"
  }

  /** The first installed file that passes the page's test. */
  function PageInstalledFile(plugins: seq<PluginUtils.InstalledPlugin>, slug: string): (r: Option<string>)
    ensures r.Some? ==> exists i :: 0 <= i < |plugins| && plugins[i].file == r.value && PageMatches(r.value, slug)
                          && forall j :: 0 <= j < i ==> !PageMatches(plugins[j].file, slug)
    ensures r.None? <==> forall j :: 0 <= j < |plugins| ==> !PageMatches(plugins[j].file, slug)
  {
    PluginUtils.FirstFileWhere(plugins, file => PageMatches(file, slug))
  }

  /** `is_plugin_installed`: the search loop with its early return. */
  method IsPluginInstalled(plugins: seq<PluginUtils.InstalledPlugin>, slug: string) returns (r: Option<string>)
    ensures r == PageInstalledFile(plugins, slug)
  {
    var i := 0;
    while i < |plugins|
      invariant 0 <= i <= |plugins|
      invariant PageInstalledFile(plugins[i..], slug) == PageInstalledFile(plugins, slug)
    {
      assert plugins[i..][0] == plugins[i] && plugins[i..][1..] == plugins[i + 1..];
      var pluginFile := plugins[i].file;
      if Php.DirName(pluginFile) == slug || pluginFile == slug + "/" + slug + ".php" {
        return Some(pluginFile);
      }
      i := i + 1;
    }
    return None;
  }

  /** For a slug without '/', the `slug/slug.php` test adds nothing: such a file is in directory `slug`. */
  lemma SlugFileTestImplied(slug: string)
    requires slug != "" && '/' !in slug
    ensures Php.DirName(slug + "/" + slug + ".php") == slug
    ensures forall file :: PageMatches(file, slug) <==> Php.DirName(file) == slug
  {
    var file := slug + ".php";
    assert '/' !in file by {
      assert forall k :: 0 <= k < |slug| ==> file[k] == slug[k];
    }
    Php.DirNameOfChild(slug, file);
    assert slug + "/" + slug + ".php" == slug + "/" + file;
  }

  /** Whatever the page's test accepts, the utilities' test accepts too. */
  lemma PageMatchImpliesUtilsMatch(file: string, slug: string)
    ensures PageMatches(file, slug) ==> PluginUtils.MatchesSlug(file, slug)
  {
    if file == slug + "/" + slug + ".php" {
      assert file[..|slug + "/"|] == slug + "/";
    }
  }

  /**
   * The utilities' test also accepts nested files `slug/sub/name` and
   * single-file plugins `slug.php`, which the page's test rejects.
   */
  lemma UtilsMatchIsWider(slug: string, sub: string, name: string)
    requires slug != "" && '/' !in slug && slug != "."
    requires sub != "" && '/' !in sub && sub[|sub| - 1] != '/'
    requires name != "" && '/' !in name && name[|name| - 1] != '/'
    ensures var nested := slug + "/" + sub + "/" + name;
      PluginUtils.MatchesSlug(nested, slug) && !PageMatches(nested, slug)
    ensures PluginUtils.MatchesSlug(slug + ".php", slug) && !PageMatches(slug + ".php", slug)
  {
    SlugFileTestImplied(slug);
    var dir := slug + "/" + sub;
    var nested := dir + "/" + name;
    assert nested[..|slug + "/"|] == slug + "/";
    assert dir[|dir| - 1] == sub[|sub| - 1];
    Php.DirNameOfChild(dir, name);
    assert |dir| > |slug|;
    var single := slug + ".php";
    assert '/' !in single by {
      assert forall k :: 0 <= k < |slug| ==> single[k] == slug[k];
    }
    Php.DirNameNoSlash(single);
  }

  /** A plugin the page finds installed is found installed by the utilities too (for a slug PHP does not read as empty). */
  lemma PageFoundImpliesUtilsFound(plugins: seq<PluginUtils.InstalledPlugin>, slug: string)
    requires !Php.Falsy(slug)
    ensures PageInstalledFile(plugins, slug).Some? ==> PluginUtils.InstalledFile(plugins, slug).Some?
  {
    if PageInstalledFile(plugins, slug).Some? {
      var i :| 0 <= i < |plugins| && PageMatches(plugins[i].file, slug);
      PageMatchImpliesUtilsMatch(plugins[i].file, slug);
    }
  }

  // ---------------------------------------------------------------------
  // render_single_plugin: the card's state

  datatype Button = ActiveBadge | ActivateButton(link: PluginUtils.ActionLink) | InstallButton

  /** The activation link (the empty string when `None`) and the button a card shows. */
  datatype Card = Card(activationUrl: Option<PluginUtils.ActionLink>, button: Button)

  /** The card for a plugin whose installed file is `file` (`None` for false). */
  function CardFor(file: Option<string>, active: set<string>): Card {
    var installed := file.Some? && !Php.Falsy(file.value);
    var isActive := installed && file.value in active;
    var activationUrl := if installed && !isActive then Some(PluginUtils.PluginActionLink("activate", file.value)) else None;
    Card(activationUrl,
         if isActive then ActiveBadge
         else if installed then ActivateButton(if activationUrl.Some? then activationUrl.value else PluginUtils.PluginActionLink("", ""))
         else InstallButton)
  }

  /**
   * An activation link exists exactly for an installed, inactive plugin, and it
   * is the one the Activate button uses; the Active badge only appears for an
   * installed plugin; and the link agrees with the utilities' `get_activation_url`.
   */
  lemma CardSpec(file: Option<string>, active: set<string>)
    ensures var c := CardFor(file, active);
      && (c.activationUrl.Some? <==> file.Some? && !Php.Falsy(file.value) && file.value !in active)
      && (c.button.ActiveBadge? ==> file.Some? && !Php.Falsy(file.value) && file.value in active)
      && (c.button.ActivateButton? <==> c.activationUrl.Some?)
      && (c.button.ActivateButton? ==> c.button.link == c.activationUrl.value)
      && (c.button.InstallButton? <==> file.None? || Php.Falsy(file.value))
      && (file.Some? ==> c.activationUrl == PluginUtils.ActivationUrl(file.value, active))
  {
  }
}
