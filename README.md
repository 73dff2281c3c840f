# Extra Product Options: verified model of the decision logic

This project models, in Dafny, the decision logic of the WooCommerce plugin
"Extra Product Options" (woo-extra-product-options). It also models the small ThemeHigh admin
dashboard the plugin ships. WordPress itself (options, transients, user meta,
`current_user_can`, `get_plugins`, `is_plugin_active`, the HTTP API) is given as
inputs, oracles or object fields.

The modules are:

- `LegacyMigration` (legacy_migration.dfy): the one-time copy of the legacy
  product-field option into sections.
  - `Migrate` is a transition on an abstract store: sections, legacy option and backup option.
  - The class `SettingsStore` runs the plugin's two loops and its writes, and is proved equal to it.
  - Whether `update_section` succeeds is an oracle `accepts`.
- `Thwepof` (thwepof.dfy): the plugin action links, the WooCommerce screen
  ids, the snooze of the deactivation form and the timing of the discount popup.
  - PHP's integer array keys and the renumbering done by `array_unshift` are modelled explicitly.
- `AdminMenu` (admin_menu.dfy): the shared "Themehigh" menu as a class.
  - The class holds the registry of plugin pages, WordPress's `$submenu` entry for the
    top-level page, the top-level page, and the one-shot script flag.
  - Registration, the menu build, the premium-link rewrite and the script guard are methods.
- `FreePluginsPage` (free_plugins_page.dfy): the ranking comparator for the
  WordPress.org catalogue, the cache-or-fetch decision with its transient, the
  page's own installed-plugin search and the state of each plugin card.
- `PluginUtils` (plugin_utils.dfy): the utilities' installed-plugin search,
  plugin status, activate/deactivate links, slug validation and the ThemeHigh
  vendor filter.
- `StableSort` (stable_sort.dfy): the result of `uasort`. Since PHP 8 the sort is stable, so it is a
  stable insertion sort. It is proved sorted, a permutation, and stable (elements
  the comparator ties keep their order).
- `Php` (php.dfy): the PHP primitives the code relies on.
  - `empty`/`?:` on strings, which treat `"0"` as empty.
  - `dirname` on '/'-separated paths, following PHP's own algorithm.
  - `strtolower` on ASCII, `strpos` tests and `str_replace`.
- `WpTime` (wp_time.dfy): WordPress's time constants.
- `Wrappers` (wrappers.dfy): `Option`.

A migration that fails part-way is not retried. The legacy option stays in place
when a write fails. But the guard at the top of the migration
(class-thwepof.php:248-250) returns as soon as any section exists. So once one of
the two writes has succeeded, every later run is a no-op and the failed section
is never written. `LegacyMigration.PartialFailureBlocksRetry` states this.
A run in which every write fails changes nothing, so it is retried
(`LegacyMigration.RejectedRunChangesNothing`).

## Model

| member | source | states |
|---|---|---|
| LegacyMigration.DefaultSection | woo-extra-product-options/includes/class-thwepof.php:257-258 | both sections start as the default section: id and name "default", before the add-to-cart button, no fields |
| LegacyMigration.AddField | woo-extra-product-options/includes/class-thwepof.php:260-270 | adding a field appends it to the section's fields and changes nothing else |
| LegacyMigration.SectionWithFields | woo-extra-product-options/includes/class-thwepof.php:257-270 | a default section filled by add_field holds exactly the legacy fields, in their order |
| LegacyMigration.PlannedWrites | woo-extra-product-options/includes/class-thwepof.php:272-294 | at most two sections are written, each with fields; nothing is written iff neither legacy list has fields |
| LegacyMigration.ApplyWrites | woo-extra-product-options/includes/class-thwepof.php:284-292 | a successful write stores its section, a failed one stores nothing; only the written ids are added |
| LegacyMigration.ApplyWritesStores | woo-extra-product-options/includes/class-thwepof.php:284-292 | the last accepted write with an id is the section stored under that id |
| LegacyMigration.ApplyWritesKeeps | woo-extra-product-options/includes/class-thwepof.php:284-292 | a key that no accepted write names keeps its section |
| LegacyMigration.ApplyWritesNewKeys | woo-extra-product-options/includes/class-thwepof.php:284-292 | every key the writes add comes from an accepted write with that id |
| LegacyMigration.Migrate | woo-extra-product-options/includes/class-thwepof.php:246-301 | no-op once any section exists or unless the legacy option is a non-empty array; the legacy option is either left in place or archived verbatim to the backup |
| LegacyMigration.AttemptedWrites | woo-extra-product-options/includes/class-thwepof.php:247-253 | no write is attempted once a section exists |
| LegacyMigration.BothListsNaming | woo-extra-product-options/includes/class-thwepof.php:274-289 | with both lists non-empty: "default"/"Section 1" before the button, then "section_2"/"Section 2" after it, each with its legacy fields in order |
| LegacyMigration.SingleListKeepsDefaultId | woo-extra-product-options/includes/class-thwepof.php:285-293 | with one list non-empty: one section, default id/name/title, moved after the button only for the after-list |
| LegacyMigration.ArchiveOnlyOnFullSuccess | woo-extra-product-options/includes/class-thwepof.php:296-299 | the legacy option is archived and deleted iff a write was planned and every write succeeded; otherwise legacy and backup are untouched |
| LegacyMigration.MigrationStoresAccepted | woo-extra-product-options/includes/class-thwepof.php:272-294 | one run stores exactly the attempted sections that were accepted, each under its own id; a rejected section is not stored |
| LegacyMigration.MigrationIdempotent | woo-extra-product-options/includes/class-thwepof.php:247-250 | once a run has stored a section, a later run with any outcome of its writes changes nothing and attempts no write; with the same outcomes, twice equals once |
| LegacyMigration.RejectedRunChangesNothing | woo-extra-product-options/includes/class-thwepof.php:247-299 | a run in which every attempted write fails leaves sections, legacy option and backup unchanged |
| LegacyMigration.PartialFailureBlocksRetry | woo-extra-product-options/includes/class-thwepof.php:247-299 | when one of two writes fails, the legacy option stays but a section exists, so later runs attempt nothing |
| LegacyMigration.SettingsStore.UpdateSection | woo-extra-product-options/includes/class-thwepof.php:284-292 | the result is the oracle's answer; on success the section is stored under its id |
| LegacyMigration.SettingsStore.MayCopyOlderVersionSettings | woo-extra-product-options/includes/class-thwepof.php:246-301 | the loops append each legacy field in order and the new store is exactly Migrate of the old one |
| Thwepof.Renumber | woo-extra-product-options/includes/class-thwepof.php:169 | array_unshift keeps string keys and text and renumbers integer keys consecutively in order |
| Thwepof.IndexOfKey | woo-extra-product-options/includes/class-thwepof.php:173 | the first position holding a key, or none when the key is absent |
| Thwepof.Framed | woo-extra-product-options/includes/class-thwepof.php:167-171 | Settings link first under key 0, old links in place with integer keys from 1, "Get Pro" last under the next integer key |
| Thwepof.AddSettingsLink | woo-extra-product-options/includes/class-thwepof.php:167-178 | Settings first, "Get Pro" last, every other link kept with its key, and only the "deactivate" entry gets the deactivate-link class |
| Thwepof.DeactivateLinkTagged | woo-extra-product-options/includes/class-thwepof.php:173-175 | a deactivate link that is an anchor starts with the tagged anchor afterwards |
| Thwepof.AddScreenId | woo-extra-product-options/includes/class-thwepof.php:161-165 | the old ids are kept and two are appended: the settings screen id, then the lower-cased translated label followed by the settings page suffix |
| Thwepof.ScreenIdUntranslated | woo-extra-product-options/includes/class-thwepof.php:161-165 | with the untranslated "Product" label both appended ids are the settings screen id |
| Thwepof.SnoozePeriod | woo-extra-product-options/includes/class-thwepof.php:853 | the posted period when present and non-zero, else one minute |
| Thwepof.DeactivationReason | woo-extra-product-options/includes/class-thwepof.php:842-860 | a failed nonce check kills the request and leaves the meta alone; otherwise "temporary" stores now plus the period as the snooze time, another reason leaves it alone, and no reason does nothing |
| Thwepof.ShowDeactivationForm | woo-extra-product-options/includes/class-thwepof.php:430-436 | the form is hidden iff a non-zero snooze time lies in the future |
| Thwepof.SnoozeWindow | woo-extra-product-options/includes/class-thwepof.php:851-857 | after snoozing at t for p seconds the form is hidden exactly on [t, t+p) |
| Thwepof.DiscountPopup | woo-extra-product-options/includes/class-thwepof.php:303-335 | a dismiss request dies iff its nonce is bad; a valid request with a truthy value records the dismissal, and only such a request does; the popup shows iff not dismissed, past since plus delay, and on the settings page |
| Thwepof.DiscountPopupMonotone | woo-extra-product-options/includes/class-thwepof.php:332-334 | once the popup shows it keeps showing at later times until dismissed |
| Thwepof.NoPopupInFirstMonth | woo-extra-product-options/includes/class-thwepof.php:317-322 | with the default delay nothing shows within a month of the install time |
| StableSort.SortSortedPermutation | woo-extra-product-options/includes/themehigh_dashboard/class-themehigh-admin-menu.php:140-142 | uasort's result is sorted under the comparator and a permutation of its input |
| StableSort.SortStable | woo-extra-product-options/includes/themehigh_dashboard/class-themehigh-admin-menu.php:140-142 | uasort's result keeps the input order of elements the comparator ties |
| AdminMenu.CompareOrder | woo-extra-product-options/includes/themehigh_dashboard/class-themehigh-admin-menu.php:140-142 | the spaceship on order: negative, zero, positive as a's order is below, equal to, above b's |
| AdminMenu.CompareOrderIsComparator | woo-extra-product-options/includes/themehigh_dashboard/class-themehigh-admin-menu.php:140-142 | the order comparator is antisymmetric and transitive |
| AdminMenu.GrantedMembers | woo-extra-product-options/includes/themehigh_dashboard/class-themehigh-admin-menu.php:144-145 | a registered page is added iff the user holds its capability |
| AdminMenu.GrantedSortedStable | woo-extra-product-options/includes/themehigh_dashboard/class-themehigh-admin-menu.php:140-155 | the added pages are exactly the granted ones, in non-decreasing order, ties in registration order |
| AdminMenu.TopLevelCallback | woo-extra-product-options/includes/themehigh_dashboard/class-themehigh-admin-menu.php:117-118 | the callback of a minimum-order page, the first registered among equals, or the empty-string callback |
| AdminMenu.RemoveFirstSlug | woo-extra-product-options/includes/themehigh_dashboard/class-themehigh-admin-menu.php:108 | removal drops the first item with the slug, and changes nothing when there is none |
| AdminMenu.RemoveFirstSlugSpec | woo-extra-product-options/includes/themehigh_dashboard/class-themehigh-admin-menu.php:108 | removal takes out exactly the item at the first index with the slug, wherever it is, and keeps the others in order |
| AdminMenu.FirstSlugIndex | woo-extra-product-options/includes/themehigh_dashboard/class-themehigh-admin-menu.php:211-216 | the first item whose slug is the premium slug, or none |
| AdminMenu.BuildOrder | woo-extra-product-options/includes/themehigh_dashboard/class-themehigh-admin-menu.php:97-109 | a fresh build yields the granted pages in order, then Free Plugins, then Premium Plugins, with the top-level copy removed |
| AdminMenu.OwnTopLevelSlugRemoved | woo-extra-product-options/includes/themehigh_dashboard/class-themehigh-admin-menu.php:97-109 | a page registered under the top-level slug itself is the item the final removal takes away |
| AdminMenu.ThemeHighAdminMenu.RegisterPlugin | woo-extra-product-options/includes/themehigh_dashboard/class-themehigh-admin-menu.php:72-92 | a known slug changes nothing; a new one is appended with a falsy capability replaced by manage_woocommerce; slugs stay unique |
| AdminMenu.ThemeHighAdminMenu.FirstRegisteredPlugin | woo-extra-product-options/includes/themehigh_dashboard/class-themehigh-admin-menu.php:161-171 | none iff the registry is empty, else a registered page of minimum order; the registry is not changed |
| AdminMenu.ThemeHighAdminMenu.AddTopLevelMenu | woo-extra-product-options/includes/themehigh_dashboard/class-themehigh-admin-menu.php:114-129 | the top-level page gets the callback of the first page by order |
| AdminMenu.ThemeHighAdminMenu.AddSubmenuPage | woo-extra-product-options/includes/themehigh_dashboard/class-themehigh-admin-menu.php:146-153 | the item is appended under the top-level slug, after WordPress's copy of the top-level page when the submenu was empty |
| AdminMenu.ThemeHighAdminMenu.AddPluginSubmenus | woo-extra-product-options/includes/themehigh_dashboard/class-themehigh-admin-menu.php:134-156 | the registry is sorted in place and the submenu gains exactly the granted pages in sorted order |
| AdminMenu.ThemeHighAdminMenu.AddGrantedPages | woo-extra-product-options/includes/themehigh_dashboard/class-themehigh-admin-menu.php:144-155 | the loop over the sorted registry adds exactly the granted pages, in registry order |
| AdminMenu.ThemeHighAdminMenu.RemoveTopLevelDuplicate | woo-extra-product-options/includes/themehigh_dashboard/class-themehigh-admin-menu.php:108 | the first item with the top-level slug is removed wherever it stands, the others keep their order, and nothing changes when there is none |
| AdminMenu.ThemeHighAdminMenu.AddAdminMenus | woo-extra-product-options/includes/themehigh_dashboard/class-themehigh-admin-menu.php:97-109 | nothing without manage_woocommerce; otherwise top level, plugin pages, Free, Premium, then removal, in that order |
| AdminMenu.ThemeHighAdminMenu.AddMenuPages | woo-extra-product-options/includes/themehigh_dashboard/class-themehigh-admin-menu.php:102-105 | the top level gets its callback, the registry is sorted, and the submenu gains the granted pages then Free and Premium |
| AdminMenu.ThemeHighAdminMenu.AddFixedPages | woo-extra-product-options/includes/themehigh_dashboard/class-themehigh-admin-menu.php:104-105 | Free Plugins is appended, then Premium Plugins, each after whatever the submenu already holds |
| AdminMenu.ThemeHighAdminMenu.ModifyPremiumPluginsLink | woo-extra-product-options/includes/themehigh_dashboard/class-themehigh-admin-menu.php:222-235 | only the given item changes: label, target set to the premium URL, class themehigh-premium-link; the footer script is hooked |
| AdminMenu.ThemeHighAdminMenu.ModifySubmenus | woo-extra-product-options/includes/themehigh_dashboard/class-themehigh-admin-menu.php:204-217 | no-op without a top-level submenu or a premium item; otherwise only the first premium item is rewritten |
| AdminMenu.ThemeHighAdminMenu.AddExternalLinkScript | woo-extra-product-options/includes/themehigh_dashboard/class-themehigh-admin-menu.php:240-253 | the script is printed on the first call only and the flag stays set |
| FreePluginsPage.CallbackRanks | woo-extra-product-options/includes/themehigh_dashboard/class-themehigh-admin-free-plugins-page.php:239-255 | negative iff more installs or equal installs and higher rating; zero iff installs and rating are both equal |
| FreePluginsPage.MissingCountsAsZero | woo-extra-product-options/includes/themehigh_dashboard/class-themehigh-admin-free-plugins-page.php:240-245 | missing installs and rating rank as 0 |
| FreePluginsPage.CallbackIsComparator | woo-extra-product-options/includes/themehigh_dashboard/class-themehigh-admin-free-plugins-page.php:239-255 | the callback is antisymmetric and transitive |
| FreePluginsPage.RankPluginsSorted | woo-extra-product-options/includes/themehigh_dashboard/class-themehigh-admin-free-plugins-page.php:229-230 | the ranked list is a permutation in which no plugin ranks ahead of an earlier one |
| FreePluginsPage.CatalogLookupSpec | woo-extra-product-options/includes/themehigh_dashboard/class-themehigh-admin-free-plugins-page.php:184-234 | a hit is returned unchanged with no fetch or write; failure or an empty answer gives [] and no write; a miss answered with plugins writes and returns them ranked: sorted, and a permutation of the answer |
| FreePluginsPage.SecondLookupHitsCache | woo-extra-product-options/includes/themehigh_dashboard/class-themehigh-admin-free-plugins-page.php:185-190 | right after a successful fetch the next call is served from the transient |
| FreePluginsPage.CatalogCache.GetThemeHighPluginsFromWpOrg | woo-extra-product-options/includes/themehigh_dashboard/class-themehigh-admin-free-plugins-page.php:184-234 | returns the lookup's result; the transient is written with a 12-hour expiry exactly when the lookup writes |
| FreePluginsPage.PageInstalledFile | woo-extra-product-options/includes/themehigh_dashboard/class-themehigh-admin-free-plugins-page.php:260-275 | the first installed file in directory slug or equal to slug/slug.php, or none when no file matches |
| FreePluginsPage.IsPluginInstalled | woo-extra-product-options/includes/themehigh_dashboard/class-themehigh-admin-free-plugins-page.php:260-275 | the search loop returns exactly that first match |
| FreePluginsPage.SlugFileTestImplied | woo-extra-product-options/includes/themehigh_dashboard/class-themehigh-admin-free-plugins-page.php:268-269 | for a slug without '/' the slug/slug.php test is implied by the directory test |
| FreePluginsPage.PageMatchImpliesUtilsMatch | woo-extra-product-options/includes/themehigh_dashboard/class-themehigh-admin-free-plugins-page.php:268-269 | every file the page's test accepts passes the utilities' test |
| FreePluginsPage.UtilsMatchIsWider | woo-extra-product-options/includes/themehigh_dashboard/class-themehigh-admin-free-plugins-page.php:268-269 | nested files slug/sub/name and single files slug.php pass the utilities' test and fail the page's |
| FreePluginsPage.PageFoundImpliesUtilsFound | woo-extra-product-options/includes/themehigh_dashboard/class-themehigh-admin-free-plugins-page.php:260-275 | a plugin the page finds installed is found installed by the utilities |
| FreePluginsPage.CardSpec | woo-extra-product-options/includes/themehigh_dashboard/class-themehigh-admin-free-plugins-page.php:107-119 | an activation link exists iff installed and inactive, Active implies installed, and the link equals get_activation_url's |
| PluginUtils.FirstMatch | woo-extra-product-options/includes/themehigh_dashboard/class-themehigh-admin-plugin-utils.php:44-63 | the first file in directory slug, under slug/, or equal to slug.php; none iff no file matches |
| PluginUtils.IsPluginInstalled | woo-extra-product-options/includes/themehigh_dashboard/class-themehigh-admin-plugin-utils.php:25-64 | the loop with its early returns returns exactly the specified result |
| PluginUtils.InstalledFileSpec | woo-extra-product-options/includes/themehigh_dashboard/class-themehigh-admin-plugin-utils.php:25-64 | false for an empty slug (including "0") or no plugins; otherwise the first matching installed file, false iff none matches |
| PluginUtils.NestedAndSingleFileMatch | woo-extra-product-options/includes/themehigh_dashboard/class-themehigh-admin-plugin-utils.php:53-60 | every file under slug/, however deep, and the single file slug.php match the slug |
| PluginUtils.PluginStatusSpec | woo-extra-product-options/includes/themehigh_dashboard/class-themehigh-admin-plugin-utils.php:108-120 | active iff a matched file is active, installed iff matched and inactive, not installed otherwise |
| PluginUtils.PluginActionLink | woo-extra-product-options/includes/themehigh_dashboard/class-themehigh-admin-plugin-utils.php:138-141 | the link names the action and file and the nonce action is action-plugin_file |
| PluginUtils.ExactlyOneActionLink | woo-extra-product-options/includes/themehigh_dashboard/class-themehigh-admin-plugin-utils.php:128-164 | neither link for an empty file; otherwise activation iff inactive and deactivation iff active, never both |
| PluginUtils.TrailingNewlineAccepted | woo-extra-product-options/includes/themehigh_dashboard/class-themehigh-admin-plugin-utils.php:172-179 | as written, a slug followed by one newline is accepted |
| PluginUtils.ValidSlugStrictSpec | woo-extra-product-options/includes/themehigh_dashboard/class-themehigh-admin-plugin-utils.php:172-179 | the strict check accepts exactly non-empty slug-character strings other than "0" and differs only on a trailing newline |
| PluginUtils.ZeroSlugRejected | woo-extra-product-options/includes/themehigh_dashboard/class-themehigh-admin-plugin-utils.php:173-175 | "0" matches the pattern but is rejected as empty |
| PluginUtils.GetThemeHighPlugins | woo-extra-product-options/includes/themehigh_dashboard/class-themehigh-admin-plugin-utils.php:186-206 | the loop returns exactly the vendor-filtered list, in order |
| PluginUtils.ThemeHighPluginsMembers | woo-extra-product-options/includes/themehigh_dashboard/class-themehigh-admin-plugin-utils.php:194-203 | an entry is kept, unchanged, iff its lower-cased author or plugin URI contains "themehigh" |
| PluginUtils.ThemeHighPluginsDistinct | woo-extra-product-options/includes/themehigh_dashboard/class-themehigh-admin-plugin-utils.php:201 | plugin files stay distinct keys in the result |
| PluginUtils.VendorTestIgnoresCase | woo-extra-product-options/includes/themehigh_dashboard/class-themehigh-admin-plugin-utils.php:196-200 | an author "ThemeHigh" passes the vendor test |

## Left out

- HTTP, JSON decoding and error_log in the catalogue fetch: the fetch outcome is a parameter (transport error, or the decoded plugins list, which is [] when missing or not JSON).
- Transient expiry: an expired transient is an absent one; only the expiry value written (12 hours) is modelled.
- The feedback POST, `$wpdb` and server information in `thwepo_deactivation_reason`; only the nonce check and the snooze branch are modelled.
- All HTML, CSS and JavaScript output (the settings page, the popup and the deactivation-form markup, the plugin grid, the modal, the star rating), hook registration, script enqueueing, localisation and the required-file loading.
- The singleton `get_instance` and `initialize_hooks` of the menu; the notification page, which only prints a heading.
- `hide_thwepo_admin_notice`, `quick_links` and `output_old_settings_copy_message`: request handling and markup.
- `get_plugin_data` of the utilities: a lookup of the header array under the matched file, not part of the decision logic.
- THWEPOF_Utils_Section and THWEPOF_Utils are not part of this model. A section is a record with a field list; `add_field` appends; `has_fields` means a non-empty list; `update_section` is an oracle that, on success, stores the section under its id; `prepare_default_section` gives id and name "default" before the add-to-cart button with no fields.
- LegacyMigration.SettingsStore.MayCopyOlderVersionSettings: legacy fields are abstract records; PHP arrays of fields keep only their iteration order.
- AdminMenu.CompareOrder: the `?? 10` default for a missing order never applies, because `register_plugin` always stores an integer order (30 by default); default arguments of `register_plugin` are the caller's business.
- AdminMenu.ThemeHighAdminMenu.AddSubmenuPage: WordPress's own capability check, hook-name computation and page registration are not modelled. The plugin pages are filtered beforehand, and Free and Premium need manage_woocommerce, which the build already requires. The copy of the top-level page follows WordPress's rule for an empty submenu.
- AdminMenu.ThemeHighAdminMenu.ModifyPremiumPluginsLink: the new label is abbreviated (the SVG icon markup is not spelled out) and not translated.
- StableSort.SortStable: `uasort` keeps array keys; only the order of the result is modelled.
- Thwepof.AddScreenId: the translation of "Product" is a parameter.
- Thwepof.SnoozePeriod: the posted period is an integer or absent; a non-numeric posted string is not modelled.
- Thwepof.DiscountPopup: the filtered delay is a parameter (one month by default), the stored dismissal is a boolean, and a dismiss value that PHP reads as false does not record a dismissal.
- PluginUtils.IsPluginInstalled: non-string slugs, which the source rejects, are not representable; `dirname` handles '/' only, not Windows separators.
- PluginUtils.PluginActionLink: `urlencode`, `self_admin_url` and the nonce value itself are not modelled; the link keeps the action, the raw file and the nonce action.
- PluginUtils.LowerHeader: `strtolower` is ASCII only, as in PHP 8.

## Findings

| source | as written | input that shows it | evidently intended | confidence | as-written member | corrected member |
|---|---|---|---|---|---|---|
| woo-extra-product-options/includes/themehigh_dashboard/class-themehigh-admin-plugin-utils.php:178 | `/^[a-zA-Z0-9_-]+$/` without the D modifier: PCRE's `$` also matches before a final newline | "my-plugin\n" is reported valid | only letters, digits, `_` and `-`, as the comment on that line says | not executed; follows PCRE's documented `$` semantics | PluginUtils.TrailingNewlineAccepted | PluginUtils.ValidSlugStrictSpec |
