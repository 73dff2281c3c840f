/**
 * The small list and time rules of the plugin's main class `THWEPOF`: the
 * plugin action links, the WooCommerce screen ids, the snooze of the
 * deactivation form and the timing of the discount popup.
 */
module Thwepof {
  import opened Wrappers
  import Php
  import opened WpTime

  // ---------------------------------------------------------------------
  // Plugin action links (`add_settings_link`)

  /** A PHP array key: an integer position or a string name. */
  datatype LinkKey = Pos(index: nat) | Named(name: string)

  /** One entry of the action-link array. */
  datatype Link = Link(key: LinkKey, html: string)

  const DEACTIVATE_KEY: LinkKey := Named("deactivate")
  const DEACTIVATE_ANCHOR: string := "<a class=\"thwepo-deactivate-link\""
  const PREMIUM_LINK: string :=
    "<a href=\"https://www.themehigh.com/product/woocommerce-extra-product-options?utm_source=free&utm_medium=plugin_action_link&utm_campaign=wepo_upgrade_link\" style=\"color:green; font-weight:bold\" target=\"_blank\">Get Pro</a>"

  /** The Settings link, given what `esc_url(admin_url(...))` returns for the settings page. */
  function SettingsLink(settingsUrl: string): string {
    "<a href=\"" + settingsUrl + "\">Settings</a>"
  }

  /** A PHP array never holds the same key twice. */
  ghost predicate UniqueKeys(links: seq<Link>) {
    forall i, j :: 0 <= i < j < |links| ==> links[i].key != links[j].key
  }

  /** The number of integer keys among the links. */
  function PositionCount(links: seq<Link>): (n: nat)
    ensures n <= |links|
  {
    if links == [] then 0 else (if links[0].key.Pos? then 1 else 0) + PositionCount(links[1..])
  }

  /**
   * Integer keys renumbered from `next` in order, string keys kept: what
   * `array_unshift` does to the elements behind the one it prepends.
   */
  function Renumber(links: seq<Link>, next: nat): (r: seq<Link>)
    ensures |r| == |links|
    ensures forall i :: 0 <= i < |links| ==> r[i].html == links[i].html
    ensures forall i :: 0 <= i < |links| ==> (r[i].key.Named? <==> links[i].key.Named?)
    ensures forall i :: 0 <= i < |links| && links[i].key.Named? ==> r[i].key == links[i].key
    ensures forall i :: 0 <= i < |links| && links[i].key.Pos? ==> r[i].key == Pos(next + PositionCount(links[..i]))
  {
    if links == [] then []
    else
      var head := if links[0].key.Pos? then Link(Pos(next), links[0].html) else links[0];
      var next' := if links[0].key.Pos? then next + 1 else next;
      var r := [head] + Renumber(links[1..], next');
      assert forall i :: 1 <= i <= |links| ==> links[..i][1..] == links[1..][..i - 1];
      r
  }

  /** `array_unshift`: prepend a value under key 0 and renumber the integer keys. */
  function ArrayUnshift(links: seq<Link>, html: string): seq<Link> {
    [Link(Pos(0), html)] + Renumber(links, 1)
  }

  /** `array_push` on an array whose integer keys run 0 .. n-1: append under key n. */
  function ArrayPush(links: seq<Link>, html: string): seq<Link> {
    links + [Link(Pos(PositionCount(links)), html)]
  }

  /** The first index holding `key`, if any. */
  function IndexOfKey(links: seq<Link>, key: LinkKey): (r: Option<nat>)
    ensures r.Some? ==> r.value < |links| && links[r.value].key == key
                        && forall j :: 0 <= j < r.value ==> links[j].key != key
    ensures r.None? ==> forall j :: 0 <= j < |links| ==> links[j].key != key
  {
    if links == [] then None
    else if links[0].key == key then Some(0)
    else match IndexOfKey(links[1..], key)
      case Some(k) => Some(k + 1)
      case None => None
  }

  /** The class injected into the deactivate link: every "<a" gets the class attribute. */
  function TagDeactivateLink(html: string): string {
    Php.StrReplace("<a", DEACTIVATE_ANCHOR, html)
  }

  lemma PositionCountAppend(a: seq<Link>, b: seq<Link>)
    ensures PositionCount(a + b) == PositionCount(a) + PositionCount(b)
  {
    if a != [] {
      assert (a + b)[1..] == a[1..] + b;
      PositionCountAppend(a[1..], b);
    } else {
      assert a + b == b;
    }
  }

  lemma RenumberCount(links: seq<Link>, next: nat)
    ensures PositionCount(Renumber(links, next)) == PositionCount(links)
  {
    if links != [] {
      RenumberCount(links[1..], if links[0].key.Pos? then next + 1 else next);
    }
  }

  /**
   * The links after `array_unshift` of the Settings link and `array_push` of the
   * "Get Pro" link: the old links sit between the two, with their text, their
   * string keys, and integer keys renumbered from 1.
   */
  function Framed(links: seq<Link>, settingsHtml: string): (r: seq<Link>)
    ensures |r| == |links| + 2
    ensures r[0] == Link(Pos(0), settingsHtml)
    ensures r[|r| - 1] == Link(Pos(PositionCount(links) + 1), PREMIUM_LINK)
    ensures forall i :: 0 <= i < |links| ==> r[i + 1].html == links[i].html
    ensures forall i :: 0 <= i < |links| ==> (r[i + 1].key.Named? <==> links[i].key.Named?)
    ensures forall i :: 0 <= i < |links| && links[i].key.Named? ==> r[i + 1].key == links[i].key
    ensures forall i :: 0 <= i < |links| && links[i].key.Pos? ==> r[i + 1].key == Pos(1 + PositionCount(links[..i]))
  {
    var settings := Link(Pos(0), settingsHtml);
    var renumbered := Renumber(links, 1);
    var front := ArrayUnshift(links, settingsHtml);
    RenumberCount(links, 1);
    PositionCountAppend([settings], renumbered);
    assert PositionCount([settings]) == 1;
    var r := ArrayPush(front, PREMIUM_LINK);
    assert forall i :: 0 <= i < |links| ==> r[i + 1] == renumbered[i];
    r
  }

  /**
   * `add_settings_link`: the Settings link comes first, the "Get Pro" link
   * last, every other link keeps its place and text, except that the entry
   * under key "deactivate", when there is one, gets the deactivate-link class.
   */
  method AddSettingsLink(links: seq<Link>, settingsUrl: string) returns (r: seq<Link>)
    requires UniqueKeys(links)
    ensures |r| == |links| + 2
    ensures r[0] == Link(Pos(0), SettingsLink(settingsUrl))
    ensures r[|r| - 1] == Link(Pos(PositionCount(links) + 1), PREMIUM_LINK)
    ensures forall i :: 0 <= i < |links| && links[i].key.Named? ==> r[i + 1].key == links[i].key
    ensures forall i :: 0 <= i < |links| && links[i].key.Pos? ==> r[i + 1].key == Pos(1 + PositionCount(links[..i]))
    ensures forall i :: 0 <= i < |links| ==>
      r[i + 1].html == if links[i].key == DEACTIVATE_KEY then TagDeactivateLink(links[i].html) else links[i].html
  {
    var framed := Framed(links, SettingsLink(settingsUrl));
    var k := IndexOfKey(framed, DEACTIVATE_KEY);
    if k.Some? {
      var at := k.value;
      assert 0 < at < |framed| - 1;
      OnlyKeyAt(links, at - 1, DEACTIVATE_KEY);
      r := framed[at := Link(DEACTIVATE_KEY, TagDeactivateLink(framed[at].html))];
      forall i | 0 <= i < |links|
        ensures r[i + 1].key == framed[i + 1].key
        ensures r[i + 1].html == if links[i].key == DEACTIVATE_KEY then TagDeactivateLink(links[i].html) else links[i].html
      {
        if i + 1 == at {
          assert framed[at].html == links[i].html;
        } else {
          assert r[i + 1] == framed[i + 1];
        }
      }
    } else {
      r := framed;
    }
  }

  /** Keys are unique: a key found at one index occurs at no other. */
  lemma OnlyKeyAt(links: seq<Link>, at: nat, key: LinkKey)
    requires UniqueKeys(links) && at < |links| && links[at].key == key
    ensures forall i :: 0 <= i < |links| && i != at ==> links[i].key != key
  {
    forall i | 0 <= i < |links| && i != at ensures links[i].key != key {
      if i < at {
        assert links[i].key != links[at].key;
      } else {
        assert links[at].key != links[i].key;
      }
    }
  }

  /** A deactivate link written as an anchor starts with the tagged anchor afterwards. */
  lemma DeactivateLinkTagged(html: string)
    requires Php.StartsWith(html, "<a")
    ensures Php.StartsWith(TagDeactivateLink(html), DEACTIVATE_ANCHOR)
  {
    Php.StrReplaceAtStart("<a", DEACTIVATE_ANCHOR, html);
  }

  // ---------------------------------------------------------------------
  // WooCommerce screen ids (`add_screen_id`)

  const SCREEN_SUFFIX: string := "_page_thwepof_extra_product_options"
  const SCREEN_ID: string := "product" + SCREEN_SUFFIX

  /**
   * `add_screen_id`: append the settings page's screen id, then the id built
   * from the translated "Product" label (given as `productLabel`).
   */
  function AddScreenId(ids: seq<string>, productLabel: string): (r: seq<string>)
    ensures |r| == |ids| + 2 && r[..|ids|] == ids
    ensures r[|ids|] == SCREEN_ID
    // The second id is the label in lower case followed by the settings page suffix.
    ensures r[|ids| + 1] == Php.ToLower(productLabel) + SCREEN_SUFFIX
    ensures Php.NoUpper(r[|ids| + 1][..|productLabel|])
  {
    ids + [SCREEN_ID, Php.ToLower(productLabel) + SCREEN_SUFFIX]
  }

  /** Under the untranslated label both appended ids are the same screen id. */
  lemma ScreenIdUntranslated(ids: seq<string>)
    ensures AddScreenId(ids, "Product")[|ids|..] == [SCREEN_ID, SCREEN_ID]
  {
    var lower := Php.ToLower("Product");
    forall i | 0 <= i < 7 ensures lower[i] == "product"[i] {
    }
    assert lower == "product";
    var r := AddScreenId(ids, "Product");
    assert r[|ids|..] == [SCREEN_ID, lower + SCREEN_SUFFIX];
  }

  // ---------------------------------------------------------------------
  // Deactivation snooze

  /**
   * The stored snooze time of the deactivation form (user meta
   * `thwepof_deactivation_snooze`); `None` when unset.
   */
  type SnoozeMeta = Option<int>

  /** What the deactivation-reason request leads to. */
  datatype ReasonOutcome =
    | NonceRejected       // `check_ajax_referer` failed: the request dies
    | NoReason            // no reason posted: nothing happens
    | Snoozed(until: int) // "temporary": the form is snoozed until the given time
    | FeedbackSent        // any other reason: the feedback is posted (not modelled)

  /**
   * The snooze period: the posted `th-snooze-time` when present and truthy, else
   * one minute. `None` stands for an absent or empty value, `Some(0)` for "0".
   */
  function SnoozePeriod(posted: Option<int>): (p: int)
    ensures posted.Some? && posted.value != 0 ==> p == posted.value
    ensures posted.None? || posted.value == 0 ==> p == MINUTE_IN_SECONDS
  {
    if posted.Some? && posted.value != 0 then posted.value else MINUTE_IN_SECONDS
  }

  /**
   * `thwepo_deactivation_reason`: a request whose nonce fails the referer check
   * dies and changes nothing; otherwise a "temporary" reason stores now + period
   * as the snooze time and other reasons leave the snooze alone.
   */
  function DeactivationReason(nonceValid: bool, reason: Option<string>, period: Option<int>, now: int, meta: SnoozeMeta)
    : (r: (ReasonOutcome, SnoozeMeta))
    ensures !nonceValid <==> r.0 == NonceRejected
    ensures !nonceValid ==> r.1 == meta
    ensures nonceValid && reason == Some("temporary") ==> r == (Snoozed(now + SnoozePeriod(period)), Some(now + SnoozePeriod(period)))
    ensures reason != Some("temporary") ==> r.1 == meta && !r.0.Snoozed?
    ensures nonceValid ==> (reason.None? <==> r.0 == NoReason)
  {
    if !nonceValid then (NonceRejected, meta)
    else match reason
    case None => (NoReason, meta)
    case Some(why) =>
      if why == "temporary" then
        var until := now + SnoozePeriod(period);
        (Snoozed(until), Some(until))
      else (FeedbackSent, meta)
  }

  /**
   * `wepo_deactivation_form`: the form is suppressed exactly while a truthy
   * (non-zero) snooze time lies in the future.
   */
  function ShowDeactivationForm(meta: SnoozeMeta, now: int): (show: bool)
    ensures !show <==> meta.Some? && meta.value != 0 && now < meta.value
  {
    !(meta.Some? && meta.value != 0 && now < meta.value)
  }

  /**
   * A "temporary" reason posted at time t with a positive period p (one minute
   * when none is posted) hides the form at every time in [t, t + p) and shows it
   * again from t + p on.
   */
  lemma SnoozeWindow(period: Option<int>, t: int, meta: SnoozeMeta, later: int)
    requires t >= 0 && SnoozePeriod(period) > 0 && later >= t
    ensures var after := DeactivationReason(true, Some("temporary"), period, t, meta).1;
      ShowDeactivationForm(after, later) <==> later >= t + SnoozePeriod(period)
  {
  }

  // ---------------------------------------------------------------------
  // Discount popup

  const SETTINGS_PAGE: string := "thwepof_extra_product_options"

  /** What the discount-popup check does. */
  datatype PopupOutcome =
    | Died                      // a dismiss request with a bad nonce ends the request
    | Decided(show: bool, dismissed: bool)

  /**
   * `thwepof_display_discount_announcement`: a dismiss request (with a valid
   * nonce and a truthy value) records the dismissal first; the popup is then
   * shown on the settings page once the render time, `thwepof_since` (0 when
   * unset) plus the delay (one month unless filtered), has passed, unless
   * dismissed.
   */
  function DiscountPopup(since: Option<int>, delay: int, now: int, dismissed: bool,
                         dismissParam: Option<string>, nonceValid: bool, page: string): (r: PopupOutcome)
    ensures dismissParam.Some? && !nonceValid <==> r == Died
    // The popup shows exactly when not dismissed, past the render time, and on the settings page.
    ensures r.Decided? ==> (r.show <==> !r.dismissed && now > since.GetOr(0) + delay && page == SETTINGS_PAGE)
    // A dismissal is kept, and a dismiss request PHP reads as true records one.
    ensures r.Decided? && dismissed ==> r.dismissed
    ensures dismissParam.Some? && nonceValid && !Php.Falsy(dismissParam.value) ==> r.Decided? && r.dismissed
    ensures r.Decided? && r.dismissed ==> dismissed || (dismissParam.Some? && !Php.Falsy(dismissParam.value))
  {
    if dismissParam.Some? && !nonceValid then Died
    else
      var nowDismissed := dismissed || (dismissParam.Some? && !Php.Falsy(dismissParam.value));
      var renderTime := since.GetOr(0) + delay;
      Decided(!nowDismissed && now > renderTime && page == SETTINGS_PAGE, nowDismissed)
  }

  /** Once the popup would show, it keeps showing at every later time until dismissed. */
  lemma DiscountPopupMonotone(since: Option<int>, delay: int, now: int, later: int, page: string)
    requires later >= now
    requires DiscountPopup(since, delay, now, false, None, true, page) == Decided(true, false)
    ensures DiscountPopup(since, delay, later, false, None, true, page) == Decided(true, false)
  {
  }

  /** With the default delay the popup never shows within a month of `thwepof_since`. */
  lemma NoPopupInFirstMonth(since: int, now: int, dismissed: bool, page: string)
    requires now <= since + MONTH_IN_SECONDS
    ensures DiscountPopup(Some(since), MONTH_IN_SECONDS, now, dismissed, None, true, page) == Decided(false, dismissed)
  {
  }
}
