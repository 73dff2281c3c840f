/**
 * The shared "Themehigh" admin menu (`ThemeHigh_Admin_Menu`). Every ThemeHigh
 * plugin registers its settings page here; at menu-build time the registry
 * adds one top-level page, the registered pages sorted by their order and
 * filtered by the user's capabilities, and the fixed "Free Plugins" and
 * "Premium Plugins" pages. A later pass turns "Premium Plugins" into an
 * external link, and a one-shot flag guards the script that opens it in a new
 * tab.
 *
 * WordPress's own state is part of the object: `$submenu['themehigh']` is the
 * field `submenu`, the page added by `add_menu_page` is `topLevelCallback`,
 * and `current_user_can` is the set of capabilities the user holds.
 */
module AdminMenu {
  import opened Wrappers
  import Php
  import StableSort

  const TOP_LEVEL_SLUG: string := "themehigh"
  const DEFAULT_CAPABILITY: string := "manage_woocommerce"
  const FREE_PLUGINS_SLUG: string := "themehigh-free-plugins"
  const PREMIUM_PLUGINS_SLUG: string := "themehigh-premium-plugins"
  const PREMIUM_PLUGINS_URL: string := "https://www.themehigh.com/plugins/"
  const PREMIUM_LINK_CLASS: string := "themehigh-premium-link"
  const DEFAULT_ORDER: int := 30

  /** A PHP callable, by name. */
  datatype Callback = Callback(name: string)

  const EMPTY_CALLBACK: Callback := Callback("__return_empty_string")
  const FREE_PLUGINS_CALLBACK: Callback := Callback("ThemeHigh_Admin_Free_Plugins_Page::render")

  /** One registered plugin page. */
  datatype MenuEntry = MenuEntry(menuName: string, pageTitle: string, slug: string,
                                 callback: Callback, capability: string, order: int)

  /**
   * One item of `$submenu['themehigh']`: [0] title, [1] capability, [2] slug or
   * target, [3] page title, [4] CSS class when set; with the page's handler,
   * which WordPress keeps beside the item.
   */
  datatype SubmenuItem = SubmenuItem(title: string, capability: string, slug: string, pageTitle: string,
                                     cssClass: Option<string>, callback: Callback)

  /** The "Premium Plugins" label after the rewrite: icon, text and a screen-reader hint (icon markup abbreviated). */
  const PREMIUM_LINK_TITLE: string :=
    "<svg/> <span></span>Premium Plugins <span class=\"screen-reader-text\">(opens in a new tab)</span>"

  const FREE_PLUGINS_ITEM: SubmenuItem :=
    SubmenuItem("Free Plugins", DEFAULT_CAPABILITY, FREE_PLUGINS_SLUG, "Free Plugins", None, FREE_PLUGINS_CALLBACK)
  const PREMIUM_PLUGINS_ITEM: SubmenuItem :=
    SubmenuItem("Premium Plugins", DEFAULT_CAPABILITY, PREMIUM_PLUGINS_SLUG, "Premium Plugins", None, EMPTY_CALLBACK)

  /** The copy of the top-level page WordPress puts first when a parent gets its first submenu. */
  function TopLevelItem(callback: Callback): SubmenuItem {
    SubmenuItem("Themehigh", DEFAULT_CAPABILITY, TOP_LEVEL_SLUG, "Themehigh", None, callback)
  }

  /** The submenu item for a registered page. */
  function ItemFor(e: MenuEntry): SubmenuItem {
    SubmenuItem(e.menuName, e.capability, e.slug, e.pageTitle, None, e.callback)
  }

  /** The sort comparator: `$a['order'] <=> $b['order']`. */
  function CompareOrder(a: MenuEntry, b: MenuEntry): (c: int)
    ensures c < 0 <==> a.order < b.order
    ensures c == 0 <==> a.order == b.order
    ensures c > 0 <==> a.order > b.order
  {
    if a.order < b.order then -1 else if a.order > b.order then 1 else 0
  }

  lemma CompareOrderIsComparator()
    ensures StableSort.IsComparator(CompareOrder)
  {
    forall a, b, c ensures StableSort.Chain(CompareOrder, a, b, c) {
    }
  }

  predicate DifferentSlugs(a: MenuEntry, b: MenuEntry) {
    a.slug != b.slug
  }

  function Slugs(entries: seq<MenuEntry>): set<string> {
    set e | e in entries :: e.slug
  }

  /** The registered entries whose capability the user holds, in the given order. */
  function Granted(entries: seq<MenuEntry>, caps: set<string>): seq<MenuEntry> {
    if entries == [] then []
    else
      var last := entries[|entries| - 1];
      Granted(entries[..|entries| - 1], caps) + (if last.capability in caps then [last] else [])
  }

  /** A registered page is added iff the user holds its capability. */
  lemma {:induction false} GrantedMembers(entries: seq<MenuEntry>, caps: set<string>)
    ensures forall e :: e in Granted(entries, caps) <==> e in entries && e.capability in caps
  {
    if entries != [] {
      var init, last := entries[..|entries| - 1], entries[|entries| - 1];
      GrantedMembers(init, caps);
      assert entries == init + [last];
    }
  }

  /** The submenu items of the entries, one each, in order. */
  function ItemsFor(entries: seq<MenuEntry>): seq<SubmenuItem> {
    if entries == [] then [] else [ItemFor(entries[0])] + ItemsFor(entries[1..])
  }

  /** The registry sorted by order: what `uasort` leaves in `$registered_plugins`. */
  function SortedEntries(entries: seq<MenuEntry>): seq<MenuEntry> {
    StableSort.Sort(entries, CompareOrder)
  }

  /**
   * The submenu of the top-level page before `add_submenu_page` appends an item
   * with the given slug: WordPress first copies the top-level page into an
   * empty submenu, unless the new item is that page itself.
   */
  function Existing(submenu: map<string, seq<SubmenuItem>>, topLevel: Option<Callback>, slug: string): seq<SubmenuItem> {
    if TOP_LEVEL_SLUG in submenu then submenu[TOP_LEVEL_SLUG]
    else if topLevel.Some? && slug != TOP_LEVEL_SLUG then [TopLevelItem(topLevel.value)]
    else []
  }

  /** `$submenu` after appending the items one by one under the top-level slug. */
  function WithItems(submenu: map<string, seq<SubmenuItem>>, topLevel: Option<Callback>, items: seq<SubmenuItem>)
    : map<string, seq<SubmenuItem>>
  {
    if items == [] then submenu else submenu[TOP_LEVEL_SLUG := Existing(submenu, topLevel, items[0].slug) + items]
  }

  /** `remove_submenu_page`'s list edit: drop the first item with the slug, if any. */
  function RemoveFirstSlug(items: seq<SubmenuItem>, slug: string): (r: seq<SubmenuItem>)
    ensures (forall i :: 0 <= i < |items| ==> items[i].slug != slug) ==> r == items
    ensures items != [] && items[0].slug == slug ==> r == items[1..]
  {
    if items == [] then []
    else if items[0].slug == slug then items[1..]
    else [items[0]] + RemoveFirstSlug(items[1..], slug)
  }

  /** `r` is `items` without the item at the first index holding the slug, or `items` itself when none does. */
  predicate RemovesFirst(items: seq<SubmenuItem>, r: seq<SubmenuItem>, slug: string) {
    match FirstSlugIndex(items, slug)
    case Some(k) => r == items[..k] + items[k + 1..]
    case None => r == items
  }

  /** The removal takes out exactly the first item with the slug, wherever it is, and keeps the rest in order. */
  lemma {:induction false} RemoveFirstSlugSpec(items: seq<SubmenuItem>, slug: string)
    ensures RemovesFirst(items, RemoveFirstSlug(items, slug), slug)
  {
    if items != [] && items[0].slug != slug {
      var tail := items[1..];
      RemoveFirstSlugSpec(tail, slug);
      match FirstSlugIndex(tail, slug)
      case Some(k) =>
        assert FirstSlugIndex(items, slug) == Some(k + 1);
        ConsSplice(items[0], tail, k);
        assert [items[0]] + tail == items;
      case None =>
        assert [items[0]] + tail == items;
    }
  }

  lemma ConsSplice<T>(x: T, t: seq<T>, k: nat)
    requires k < |t|
    ensures [x] + (t[..k] + t[k + 1..]) == ([x] + t)[..k + 1] + ([x] + t)[k + 2..]
  {
    assert ([x] + t)[..k + 1] == [x] + t[..k];
    assert ([x] + t)[k + 2..] == t[k + 1..];
  }

  /** The index of the first item with the slug. */
  function FirstSlugIndex(items: seq<SubmenuItem>, slug: string): (r: Option<nat>)
    ensures r.Some? ==> r.value < |items| && items[r.value].slug == slug
                        && forall j :: 0 <= j < r.value ==> items[j].slug != slug
    ensures r.None? ==> forall j :: 0 <= j < |items| ==> items[j].slug != slug
  {
    if items == [] then None
    else if items[0].slug == slug then Some(0)
    else match FirstSlugIndex(items[1..], slug)
      case Some(k) => Some(k + 1)
      case None => None
  }

  /** `modify_premium_plugins_link`'s edit of one item: label, target URL and CSS class. */
  function ExternalPremiumLink(item: SubmenuItem): SubmenuItem {
    item.(title := PREMIUM_LINK_TITLE, slug := PREMIUM_PLUGINS_URL, cssClass := Some(PREMIUM_LINK_CLASS))
  }

  /** The callback of the top-level page: that of the first entry by order, or the empty-string callback. */
  function TopLevelCallback(entries: seq<MenuEntry>): (cb: Callback)
    ensures entries == [] ==> cb == EMPTY_CALLBACK
    ensures entries != [] ==>
      (exists i :: 0 <= i < |entries| && cb == entries[i].callback
        && (forall e :: e in entries ==> entries[i].order <= e.order)
        && (forall j :: 0 <= j < i ==> entries[j].order > entries[i].order))
  {
    if entries == [] then EMPTY_CALLBACK
    else
      CompareOrderIsComparator();
      StableSort.SortHeadIsFirstMinimum(entries, CompareOrder);
      SortedEntries(entries)[0].callback
  }

  /** `$submenu['themehigh']` at the end of `add_admin_menus`, given the user holds the default capability. */
  function BuiltSubmenu(submenu: map<string, seq<SubmenuItem>>, entries: seq<MenuEntry>, caps: set<string>)
    : map<string, seq<SubmenuItem>>
  {
    var added := WithItems(submenu, Some(TopLevelCallback(entries)),
                           ItemsFor(Granted(SortedEntries(entries), caps)) + [FREE_PLUGINS_ITEM, PREMIUM_PLUGINS_ITEM]);
    added[TOP_LEVEL_SLUG := RemoveFirstSlug(added[TOP_LEVEL_SLUG], TOP_LEVEL_SLUG)]
  }

  lemma WithItemsStep(submenu: map<string, seq<SubmenuItem>>, topLevel: Option<Callback>, items: seq<SubmenuItem>, item: SubmenuItem)
    ensures var before := WithItems(submenu, topLevel, items);
      WithItems(submenu, topLevel, items + [item]) == before[TOP_LEVEL_SLUG := Existing(before, topLevel, item.slug) + [item]]
  {
    if items != [] {
      var prior := Existing(submenu, topLevel, items[0].slug);
      assert (items + [item])[0] == items[0];
      assert prior + (items + [item]) == prior + items + [item];
    } else {
      assert items + [item] == [item];
    }
  }

  lemma GrantedStep(entries: seq<MenuEntry>, i: nat, caps: set<string>)
    requires i < |entries|
    ensures Granted(entries[..i + 1], caps)
         == Granted(entries[..i], caps) + (if entries[i].capability in caps then [entries[i]] else [])
  {
    assert entries[..i + 1][..i] == entries[..i];
  }

  lemma {:induction false} ItemsForAppend(a: seq<MenuEntry>, b: seq<MenuEntry>)
    ensures ItemsFor(a + b) == ItemsFor(a) + ItemsFor(b)
  {
    if a == [] {
      assert a + b == b;
    } else {
      assert (a + b)[1..] == a[1..] + b;
      ItemsForAppend(a[1..], b);
    }
  }

  /** One round of the loop over the sorted registry: a granted page is added, any other is skipped. */
  lemma PluginStep(start: map<string, seq<SubmenuItem>>, topLevel: Option<Callback>,
                   entries: seq<MenuEntry>, i: nat, caps: set<string>)
    requires i < |entries|
    ensures var before := WithItems(start, topLevel, ItemsFor(Granted(entries[..i], caps)));
      WithItems(start, topLevel, ItemsFor(Granted(entries[..i + 1], caps)))
        == if entries[i].capability in caps
           then before[TOP_LEVEL_SLUG := Existing(before, topLevel, entries[i].slug) + [ItemFor(entries[i])]]
           else before
  {
    var granted := Granted(entries[..i], caps);
    GrantedStep(entries, i, caps);
    if entries[i].capability in caps {
      ItemsForAppend(granted, [entries[i]]);
      assert ItemsFor([entries[i]]) == [ItemFor(entries[i])];
      WithItemsStep(start, topLevel, ItemsFor(granted), ItemFor(entries[i]));
    } else {
      assert Granted(entries[..i + 1], caps) == granted;
    }
  }

  /** Appending the plugin pages, then "Free Plugins", then "Premium Plugins" appends all three at once. */
  lemma FixedPagesAppended(submenu: map<string, seq<SubmenuItem>>, topLevel: Option<Callback>, plugins: seq<SubmenuItem>)
    ensures var m1 := WithItems(submenu, topLevel, plugins);
      var m2 := m1[TOP_LEVEL_SLUG := Existing(m1, topLevel, FREE_PLUGINS_SLUG) + [FREE_PLUGINS_ITEM]];
      m2[TOP_LEVEL_SLUG := Existing(m2, topLevel, PREMIUM_PLUGINS_SLUG) + [PREMIUM_PLUGINS_ITEM]]
        == WithItems(submenu, topLevel, plugins + [FREE_PLUGINS_ITEM, PREMIUM_PLUGINS_ITEM])
  {
    WithItemsStep(submenu, topLevel, plugins, FREE_PLUGINS_ITEM);
    WithItemsStep(submenu, topLevel, plugins + [FREE_PLUGINS_ITEM], PREMIUM_PLUGINS_ITEM);
    assert plugins + [FREE_PLUGINS_ITEM] + [PREMIUM_PLUGINS_ITEM] == plugins + [FREE_PLUGINS_ITEM, PREMIUM_PLUGINS_ITEM];
  }

  /** Sorting a registry with unique slugs keeps them unique. */
  lemma SortedSlugsDistinct(entries: seq<MenuEntry>)
    requires StableSort.Pairwise(entries, DifferentSlugs)
    ensures StableSort.Pairwise(SortedEntries(entries), DifferentSlugs)
  {
    StableSort.SortPairwise(entries, CompareOrder, DifferentSlugs);
  }

  /** `BuiltSubmenu` is the appended menu with the first top-level item removed. */
  lemma BuiltFrom(submenu: map<string, seq<SubmenuItem>>, entries: seq<MenuEntry>, caps: set<string>,
                  added: map<string, seq<SubmenuItem>>)
    requires added == WithItems(submenu, Some(TopLevelCallback(entries)),
                                ItemsFor(Granted(SortedEntries(entries), caps)) + [FREE_PLUGINS_ITEM, PREMIUM_PLUGINS_ITEM])
    ensures TOP_LEVEL_SLUG in added
    ensures BuiltSubmenu(submenu, entries, caps) == added[TOP_LEVEL_SLUG := RemoveFirstSlug(added[TOP_LEVEL_SLUG], TOP_LEVEL_SLUG)]
  {
  }

  // ---------------------------------------------------------------------
  // Properties of the build

  /**
   * Built on a fresh menu, the submenu is exactly the granted registered pages
   * in order, then "Free Plugins" and "Premium Plugins": the copy of the
   * top-level page that WordPress inserted is removed again. This needs a
   * registry without the top-level slug itself; see `OwnTopLevelSlugRemoved`.
   */
  lemma BuildOrder(entries: seq<MenuEntry>, caps: set<string>)
    requires TOP_LEVEL_SLUG !in Slugs(entries)
    ensures var built := BuiltSubmenu(map[], entries, caps);
      TOP_LEVEL_SLUG in built &&
      built[TOP_LEVEL_SLUG] == ItemsFor(Granted(SortedEntries(entries), caps)) + [FREE_PLUGINS_ITEM, PREMIUM_PLUGINS_ITEM]
  {
    var granted := Granted(SortedEntries(entries), caps);
    var items := ItemsFor(granted) + [FREE_PLUGINS_ITEM, PREMIUM_PLUGINS_ITEM];
    assert items[0].slug != TOP_LEVEL_SLUG by {
      if granted != [] {
        StableSort.SortElements(entries, CompareOrder);
        GrantedMembers(SortedEntries(entries), caps);
        assert granted[0] in entries;
      }
    }
    var top := TopLevelItem(TopLevelCallback(entries));
    assert ([top] + items)[1..] == items;
  }

  /**
   * A registered page whose slug is the top-level slug itself, when it comes
   * first, is not preceded by WordPress's copy of the top-level page, so the
   * final removal takes that page away instead.
   */
  lemma OwnTopLevelSlugRemoved(e: MenuEntry, caps: set<string>)
    requires e.slug == TOP_LEVEL_SLUG && e.capability in caps
    ensures BuiltSubmenu(map[], [e], caps)[TOP_LEVEL_SLUG] == [FREE_PLUGINS_ITEM, PREMIUM_PLUGINS_ITEM]
  {
    assert [e][..0] == [] && [e][1..] == [];
    assert StableSort.Sort([e][..0], CompareOrder) == [];
    assert SortedEntries([e]) == [e];
    assert Granted([e], caps) == [e];
    assert ItemsFor([e]) == [ItemFor(e)];
    var items := ItemsFor([e]) + [FREE_PLUGINS_ITEM, PREMIUM_PLUGINS_ITEM];
    assert items == [ItemFor(e), FREE_PLUGINS_ITEM, PREMIUM_PLUGINS_ITEM];
    assert items[1..] == [FREE_PLUGINS_ITEM, PREMIUM_PLUGINS_ITEM];
  }

  /**
   * The pages added for the registry are exactly the registered pages whose
   * capability the user holds, in non-decreasing order, and pages of equal order
   * keep their registration order.
   */
  lemma GrantedSortedStable(entries: seq<MenuEntry>, caps: set<string>)
    ensures var added := Granted(SortedEntries(entries), caps);
      && (forall e :: e in added <==> e in entries && e.capability in caps)
      && InOrder(added)
      && (forall x :: StableSort.Ties(added, x, CompareOrder) == StableSort.Ties(Granted(entries, caps), x, CompareOrder))
  {
    CompareOrderIsComparator();
    var sorted := SortedEntries(entries);
    StableSort.SortSortedPermutation(entries, CompareOrder);
    StableSort.SortElements(entries, CompareOrder);
    GrantedMembers(sorted, caps);
    GrantedSorted(sorted, caps);
    forall x ensures StableSort.Ties(Granted(sorted, caps), x, CompareOrder) == StableSort.Ties(Granted(entries, caps), x, CompareOrder) {
      StableSort.SortStable(entries, CompareOrder);
      GrantedTies(sorted, caps, x);
      GrantedTies(entries, caps, x);
    }
  }

  /** Orders never decrease along the sequence. */
  predicate InOrder(entries: seq<MenuEntry>) {
    forall i, j :: 0 <= i < j < |entries| ==> entries[i].order <= entries[j].order
  }

  lemma {:induction false} GrantedSorted(entries: seq<MenuEntry>, caps: set<string>)
    requires InOrder(entries)
    ensures InOrder(Granted(entries, caps))
  {
    if entries != [] {
      var init, last := entries[..|entries| - 1], entries[|entries| - 1];
      GrantedSorted(init, caps);
      GrantedMembers(init, caps);
      var g := Granted(init, caps);
      var gl := Granted(entries, caps);
      assert gl == g + (if last.capability in caps then [last] else []);
      forall i, j | 0 <= i < j < |gl| ensures gl[i].order <= gl[j].order {
        if j < |g| {
          assert gl[i] == g[i] && gl[j] == g[j];
          assert g[i].order <= g[j].order;
        } else {
          assert i < |g| && gl[j] == last;
          assert gl[i] == g[i] && g[i] in g;
          var k :| 0 <= k < |init| && init[k] == g[i];
          assert entries[k] == g[i];
          assert entries[k].order <= entries[|entries| - 1].order;
        }
      }
    }
  }

  /** Filtering by capability and picking a tie class commute. */
  lemma {:induction false} GrantedTies(entries: seq<MenuEntry>, caps: set<string>, x: MenuEntry)
    ensures StableSort.Ties(Granted(entries, caps), x, CompareOrder) == Granted(StableSort.Ties(entries, x, CompareOrder), caps)
  {
    if entries != [] {
      var init, last := entries[..|entries| - 1], entries[|entries| - 1];
      var kept: seq<MenuEntry> := if last.capability in caps then [last] else [];
      var tie := StableSort.Ties([last], x, CompareOrder);
      assert StableSort.Ties(kept, x, CompareOrder) == Granted(tie, caps) by {
        StableSort.TiesSingleton(last, x, CompareOrder);
        GrantedSingleton(last, caps);
      }
      GrantedTies(init, caps, x);
      assert entries == init + [last];
      calc {
        StableSort.Ties(Granted(entries, caps), x, CompareOrder);
        StableSort.Ties(Granted(init, caps) + kept, x, CompareOrder);
        { StableSort.TiesAppend(Granted(init, caps), kept, x, CompareOrder); }
        StableSort.Ties(Granted(init, caps), x, CompareOrder) + StableSort.Ties(kept, x, CompareOrder);
        Granted(StableSort.Ties(init, x, CompareOrder), caps) + Granted(tie, caps);
        { GrantedAppend(StableSort.Ties(init, x, CompareOrder), tie, caps); }
        Granted(StableSort.Ties(init, x, CompareOrder) + tie, caps);
        { StableSort.TiesAppend(init, [last], x, CompareOrder); }
        Granted(StableSort.Ties(entries, x, CompareOrder), caps);
      }
    }
  }

  lemma GrantedSingleton(e: MenuEntry, caps: set<string>)
    ensures Granted([e], caps) == if e.capability in caps then [e] else []
  {
    assert [e][..0] == [];
  }

  lemma {:induction false} GrantedAppend(a: seq<MenuEntry>, b: seq<MenuEntry>, caps: set<string>)
    ensures Granted(a + b, caps) == Granted(a, caps) + Granted(b, caps)
    decreases |b|
  {
    if b == [] {
      assert a + b == a;
    } else {
      var init := b[..|b| - 1];
      assert (a + b)[..|a + b| - 1] == a + init;
      GrantedAppend(a, init, caps);
    }
  }

  // ---------------------------------------------------------------------
  // The menu object

  class ThemeHighAdminMenu {
    var registered: seq<MenuEntry>                 // static $registered_plugins, in array order
    var submenu: map<string, seq<SubmenuItem>>     // WordPress's global $submenu
    var topLevelCallback: Option<Callback>         // the top-level page, once add_menu_page ran
    var footerScriptHooked: bool                   // add_external_link_script hooked to admin_footer
    var scriptAdded: bool                          // $script_added
    var scriptsEmitted: nat                        // how often the script was printed

    /** Slugs are unique in the registry, and the script was printed once iff the flag is set. */
    ghost predicate Valid()
      reads this
    {
      && StableSort.Pairwise(registered, DifferentSlugs)
      && scriptsEmitted == (if scriptAdded then 1 else 0)
    }

    constructor ()
      ensures Valid()
      ensures registered == [] && submenu == map[] && topLevelCallback == None
      ensures !footerScriptHooked && !scriptAdded && scriptsEmitted == 0
    {
      registered, submenu, topLevelCallback := [], map[], None;
      footerScriptHooked, scriptAdded, scriptsEmitted := false, false, 0;
    }

    /**
     * `register_plugin`: a new slug is appended with its capability defaulted
     * when falsy; a slug already registered changes nothing.
     */
    method RegisterPlugin(menuName: string, pageTitle: string, slug: string, callback: Callback,
                          capability: string, order: int)
      requires Valid()
      modifies this`registered
      ensures Valid()
      ensures slug in Slugs(old(registered)) ==> registered == old(registered)
      ensures slug !in Slugs(old(registered)) ==>
        registered == old(registered) + [MenuEntry(menuName, pageTitle, slug, callback,
          if Php.Falsy(capability) then DEFAULT_CAPABILITY else capability, order)]
    {
      if slug !in Slugs(registered) {
        var entry := MenuEntry(menuName, pageTitle, slug, callback,
          if Php.Falsy(capability) then DEFAULT_CAPABILITY else capability, order);
        forall e | e in registered ensures DifferentSlugs(e, entry) {
          assert e.slug in Slugs(registered);
        }
        registered := registered + [entry];
      }
    }

    /** `get_first_registered_plugin`: the first entry of a sorted copy; the registry is not reordered. */
    function FirstRegisteredPlugin(): (r: Option<MenuEntry>)
      reads this
      ensures r.None? <==> registered == []
      ensures r.Some? ==> r.value in registered && forall e :: e in registered ==> r.value.order <= e.order
    {
      if registered == [] then None
      else
        CompareOrderIsComparator();
        StableSort.SortHeadIsFirstMinimum(registered, CompareOrder);
        Some(SortedEntries(registered)[0])
    }

    /** `add_top_level_menu`. */
    method AddTopLevelMenu()
      modifies this`topLevelCallback
      ensures topLevelCallback == Some(TopLevelCallback(registered))
    {
      var first := FirstRegisteredPlugin();
      topLevelCallback := Some(if first.Some? then first.value.callback else EMPTY_CALLBACK);
    }

    /** WordPress's `add_submenu_page` under the top-level slug, for a user who holds the capability. */
    method AddSubmenuPage(item: SubmenuItem)
      modifies this`submenu
      ensures submenu == old(submenu)[TOP_LEVEL_SLUG := Existing(old(submenu), topLevelCallback, item.slug) + [item]]
    {
      submenu := submenu[TOP_LEVEL_SLUG := Existing(submenu, topLevelCallback, item.slug) + [item]];
    }

    /** `add_plugin_submenus`: sort the registry in place, then add each page the user may see. */
    method AddPluginSubmenus(caps: set<string>)
      requires Valid()
      modifies this`registered, this`submenu
      ensures Valid()
      ensures registered == SortedEntries(old(registered))
      ensures submenu == WithItems(old(submenu), topLevelCallback, ItemsFor(Granted(registered, caps)))
    {
      if registered == [] {
        return;
      }
      SortedSlugsDistinct(registered);
      registered := SortedEntries(registered);
      AddGrantedPages(caps);
    }

    /** The loop of `add_plugin_submenus` over the already sorted registry. */
    method AddGrantedPages(caps: set<string>)
      modifies this`submenu
      ensures submenu == WithItems(old(submenu), topLevelCallback, ItemsFor(Granted(registered, caps)))
    {
      ghost var start := submenu;
      var i := 0;
      while i < |registered|
        invariant 0 <= i <= |registered|
        invariant submenu == WithItems(start, topLevelCallback, ItemsFor(Granted(registered[..i], caps)))
      {
        var details := registered[i];
        PluginStep(start, topLevelCallback, registered, i, caps);
        if details.capability in caps {
          AddSubmenuPage(ItemFor(details));
        }
        i := i + 1;
      }
      assert registered[..i] == registered;
    }

    /** `remove_submenu_page('themehigh', 'themehigh')`. */
    method RemoveTopLevelDuplicate()
      modifies this`submenu
      ensures TOP_LEVEL_SLUG !in old(submenu) ==> submenu == old(submenu)
      ensures TOP_LEVEL_SLUG in old(submenu) ==>
        submenu == old(submenu)[TOP_LEVEL_SLUG := RemoveFirstSlug(old(submenu)[TOP_LEVEL_SLUG], TOP_LEVEL_SLUG)]
      // The first item with the slug goes, wherever it stands; the others keep their order.
      ensures TOP_LEVEL_SLUG in old(submenu) ==>
        TOP_LEVEL_SLUG in submenu && RemovesFirst(old(submenu)[TOP_LEVEL_SLUG], submenu[TOP_LEVEL_SLUG], TOP_LEVEL_SLUG)
    {
      if TOP_LEVEL_SLUG in submenu {
        RemoveFirstSlugSpec(submenu[TOP_LEVEL_SLUG], TOP_LEVEL_SLUG);
        submenu := submenu[TOP_LEVEL_SLUG := RemoveFirstSlug(submenu[TOP_LEVEL_SLUG], TOP_LEVEL_SLUG)];
      }
    }

    /**
     * `add_admin_menus`: nothing for a user without the default capability;
     * otherwise the top-level page, the registered pages, "Free Plugins",
     * "Premium Plugins", and the removal of the top-level duplicate.
     */
    method AddAdminMenus(caps: set<string>)
      requires Valid()
      modifies this`registered, this`submenu, this`topLevelCallback
      ensures Valid()
      ensures unchanged(this`footerScriptHooked, this`scriptAdded, this`scriptsEmitted)
      ensures DEFAULT_CAPABILITY !in caps ==>
        unchanged(this`registered, this`submenu, this`topLevelCallback)
      ensures DEFAULT_CAPABILITY in caps ==>
        && topLevelCallback == Some(TopLevelCallback(old(registered)))
        && registered == SortedEntries(old(registered))
        && submenu == BuiltSubmenu(old(submenu), old(registered), caps)
    {
      if DEFAULT_CAPABILITY !in caps {
        return;
      }
      ghost var entries, start := registered, submenu;
      AddMenuPages(caps);
      BuiltFrom(start, entries, caps, submenu);
      RemoveTopLevelDuplicate();
    }

    /** The pages `add_admin_menus` adds before it removes the duplicate: top level, plugin pages, Free, Premium. */
    method AddMenuPages(caps: set<string>)
      requires Valid()
      modifies this`registered, this`submenu, this`topLevelCallback
      ensures Valid()
      ensures topLevelCallback == Some(TopLevelCallback(old(registered)))
      ensures registered == SortedEntries(old(registered))
      ensures submenu == WithItems(old(submenu), topLevelCallback,
                                   ItemsFor(Granted(registered, caps)) + [FREE_PLUGINS_ITEM, PREMIUM_PLUGINS_ITEM])
    {
      ghost var start := submenu;
      AddTopLevelMenu();
      AddPluginSubmenus(caps);
      FixedPagesAppended(start, topLevelCallback, ItemsFor(Granted(registered, caps)));
      AddFixedPages();
    }

    /** "Free Plugins", then "Premium Plugins", each appended through `add_submenu_page`. */
    method AddFixedPages()
      modifies this`submenu
      ensures var m := old(submenu)[TOP_LEVEL_SLUG := Existing(old(submenu), topLevelCallback, FREE_PLUGINS_SLUG) + [FREE_PLUGINS_ITEM]];
        submenu == m[TOP_LEVEL_SLUG := Existing(m, topLevelCallback, PREMIUM_PLUGINS_SLUG) + [PREMIUM_PLUGINS_ITEM]]
    {
      AddSubmenuPage(FREE_PLUGINS_ITEM);
      AddSubmenuPage(PREMIUM_PLUGINS_ITEM);
    }

    /** `modify_premium_plugins_link(key)`. */
    method ModifyPremiumPluginsLink(key: nat)
      requires TOP_LEVEL_SLUG in submenu && key < |submenu[TOP_LEVEL_SLUG]|
      modifies this`submenu, this`footerScriptHooked
      ensures submenu == old(submenu)[TOP_LEVEL_SLUG :=
        old(submenu)[TOP_LEVEL_SLUG][key := ExternalPremiumLink(old(submenu)[TOP_LEVEL_SLUG][key])]]
      ensures footerScriptHooked
    {
      var items := submenu[TOP_LEVEL_SLUG];
      submenu := submenu[TOP_LEVEL_SLUG := items[key := ExternalPremiumLink(items[key])]];
      footerScriptHooked := true;
    }

    /**
     * `modify_submenus`: rewrite the first "Premium Plugins" item into the
     * external link; every other item, and a menu without such an item, stays
     * as it was.
     */
    method ModifySubmenus()
      modifies this`submenu, this`footerScriptHooked
      ensures TOP_LEVEL_SLUG !in old(submenu) ==> unchanged(this)
      ensures TOP_LEVEL_SLUG in old(submenu) ==>
        var items := old(submenu)[TOP_LEVEL_SLUG];
        match FirstSlugIndex(items, PREMIUM_PLUGINS_SLUG)
        case None => unchanged(this)
        case Some(k) =>
          && submenu == old(submenu)[TOP_LEVEL_SLUG := items[k := ExternalPremiumLink(items[k])]]
          && footerScriptHooked
    {
      if TOP_LEVEL_SLUG !in submenu {
        return;
      }
      var items := submenu[TOP_LEVEL_SLUG];
      var key := 0;
      while key < |items|
        invariant 0 <= key <= |items|
        invariant forall j :: 0 <= j < key ==> items[j].slug != PREMIUM_PLUGINS_SLUG
      {
        if items[key].slug == PREMIUM_PLUGINS_SLUG {
          ModifyPremiumPluginsLink(key);
          return;
        }
        key := key + 1;
      }
    }

    /** `add_external_link_script`: prints the script the first time only. */
    method AddExternalLinkScript() returns (printed: bool)
      requires Valid()
      modifies this`scriptAdded, this`scriptsEmitted
      ensures Valid()
      ensures printed == !old(scriptAdded)
      ensures scriptAdded && scriptsEmitted == 1
    {
      if scriptAdded {
        return false;
      }
      scriptAdded := true;
      scriptsEmitted := scriptsEmitted + 1;
      return true;
    }
  }
}
