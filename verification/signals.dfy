/**
 * Signal cards: category filter pills, per-card "More" toggles and the
 * expand-all / collapse-all buttons (`initSignals` in scripts/ui.js).
 *
 * A `.signal-card` is a `Card` record and a `.signals-pill` a `Pill` record;
 * the cards and the pills in document order are two arrays updated in place.
 * `SignalsPanel` holds what the `initSignals` closure captures, and each of
 * its methods is one of the closure's functions or event handlers.
 */
module Signals {
  import opened Wrappers
  import opened Text

  /** The `.signal-more` button of a card. */
  datatype MoreButton = MoreButton(
    ariaExpanded: Option<string>,  // the aria-expanded attribute, None when absent
    chevron: Option<string>)       // text of the `.chev` element inside it, None when there is none

  /** The `.signal-detail` panel of a card. */
  datatype Detail = Detail(hidden: bool)

  datatype Card = Card(
    dataType: Option<string>,  // the data-type attribute, None when absent
    display: string,           // the inline `style.display`
    more: Option<MoreButton>,  // the first `.signal-more` inside the card
    detail: Option<Detail>)    // the first `.signal-detail` inside the card

  datatype Pill = Pill(
    filter: Option<string>,  // the data-filter attribute, None when absent
    active: bool)            // the is-active class is present

  /** Chevron glyphs for an open and a closed card. */
  const Up: string := "\U{25B2}"
  const Down: string := "\U{25BC}"

  // ---------- Filtering ----------

  /** The card's lower-cased category, `""` when it has none. */
  function CardType(c: Card): string {
    Lower(c.dataType.GetOr(""))
  }

  /** `applyFilter` shows a card under `filter` (already lower-cased). */
  predicate Shows(c: Card, filter: string) {
    filter == "all" || CardType(c) == filter
  }

  function ShowIf(c: Card, filter: string): Card {
    c.(display := if Shows(c, filter) then "" else "none")
  }

  /** The cards after `applyFilter(filter)`. */
  function Filtered(cards: seq<Card>, filter: string): (r: seq<Card>)
    ensures |r| == |cards|
  {
    seq(|cards|, i requires 0 <= i < |cards| => ShowIf(cards[i], filter))
  }

  /** The filter a pill click applies: its lower-cased `data-filter`, `"all"` when that is absent or empty. */
  function PillFilter(p: Pill): string {
    Lower(if p.filter.None? || p.filter.value == "" then "all" else p.filter.value)
  }

  /** The pills after a click on pill `k`: only `k` keeps the is-active class. */
  function ActivateOnly(pills: seq<Pill>, k: nat): (r: seq<Pill>)
    ensures |r| == |pills|
  {
    seq(|pills|, i requires 0 <= i < |pills| => pills[i].(active := i == k))
  }

  // ---------- Expansion ----------

  /** The card counts as open: its button says aria-expanded="true". */
  predicate IsOpen(c: Card) {
    c.more.Some? && c.more.value.ariaExpanded == Some("true")
  }

  /**
   * Button and panel agree: aria-expanded is "true" exactly when the detail
   * is not hidden (and "false" otherwise), and a chevron shows the matching glyph.
   */
  predicate Synced(c: Card) {
    c.more.Some? && c.detail.Some? ==>
      && c.more.value.ariaExpanded == Some(if c.detail.value.hidden then "false" else "true")
      && (c.more.value.chevron.Some? ==> c.more.value.chevron == Some(if c.detail.value.hidden then Down else Up))
  }

  /** The card after `setExpanded(card, expanded)`; a card without button or panel is left alone. */
  function SetExpandedCard(c: Card, expanded: bool): Card {
    if c.more.None? || c.detail.None? then c
    else
      var btn := c.more.value;
      var chevron := if btn.chevron.Some? then Some(if expanded then Up else Down) else None;
      c.(more := Some(btn.(ariaExpanded := Some(if expanded then "true" else "false"), chevron := chevron)),
         detail := Some(c.detail.value.(hidden := !expanded)))
  }

  /** The card after a click on its "More" button. */
  function Toggle(c: Card): Card {
    SetExpandedCard(c, !IsOpen(c))
  }

  /** The cards after expand-all (`expanded`) or collapse-all (`!expanded`): hidden cards are skipped. */
  function SetShown(cards: seq<Card>, expanded: bool): (r: seq<Card>)
    ensures |r| == |cards|
  {
    seq(|cards|, i requires 0 <= i < |cards| =>
      if cards[i].display == "none" then cards[i] else SetExpandedCard(cards[i], expanded))
  }

  // ---------- Properties ----------

  /**
   * `applyFilter(filter)` leaves a card displayed exactly when the filter is
   * "all" or equals the card's lower-cased category, writes only `""` or
   * `"none"`, and changes nothing but the display: category, button and
   * panel (so the expansion state) are kept.
   */
  lemma FilterDisplaysExactly(cards: seq<Card>, filter: string)
    ensures forall i :: 0 <= i < |cards| ==>
      (Filtered(cards, filter)[i].display != "none" <==> filter == "all" || CardType(cards[i]) == filter)
    ensures forall i :: 0 <= i < |cards| ==> Filtered(cards, filter)[i].display in {"", "none"}
    ensures forall i :: 0 <= i < |cards| ==>
      Filtered(cards, filter)[i].(display := cards[i].display) == cards[i]
  {
  }

  /** The filter "all" displays every card. */
  lemma FilterAllDisplaysEvery(cards: seq<Card>)
    ensures forall i :: 0 <= i < |cards| ==> Filtered(cards, "all")[i].display == ""
  {
  }

  /** Only the last filter applied matters. */
  lemma FilterLastWins(cards: seq<Card>, f: string, g: string)
    ensures Filtered(Filtered(cards, f), g) == Filtered(cards, g)
  {
    var once := Filtered(cards, f);
    assert forall i :: 0 <= i < |cards| ==> CardType(once[i]) == CardType(cards[i]);
  }

  /**
   * A pill click matches case-insensitively: with a non-empty `data-filter`
   * `f`, a card is displayed exactly when `f` is "all" up to ASCII case, or
   * the card's `data-type` equals `f` up to ASCII case; with no or an empty
   * `data-filter`, every card is displayed.
   */
  lemma PillFilterCaseInsensitive(cards: seq<Card>, p: Pill)
    ensures p.filter.Some? && p.filter.value != "" ==>
      forall i :: 0 <= i < |cards| ==>
        (Filtered(cards, PillFilter(p))[i].display != "none" <==>
          EqIgnoreCase(p.filter.value, "all") || EqIgnoreCase(cards[i].dataType.GetOr(""), p.filter.value))
    ensures p.filter.None? || p.filter == Some("") ==>
      forall i :: 0 <= i < |cards| ==> Filtered(cards, PillFilter(p))[i].display == ""
  {
    assert Lower("all") == "all";
    if p.filter.Some? && p.filter.value != "" {
      var f := p.filter.value;
      LowerEqIffEqIgnoreCase(f, "all");
      forall i | 0 <= i < |cards|
        ensures Lower(cards[i].dataType.GetOr("")) == Lower(f) <==> EqIgnoreCase(cards[i].dataType.GetOr(""), f)
      {
        LowerEqIffEqIgnoreCase(cards[i].dataType.GetOr(""), f);
      }
    }
  }

  /** After a click on pill `k`, pill `k` is the only active one; no pill's filter changes. */
  lemma ActivateOnlyExactlyOne(pills: seq<Pill>, k: nat)
    ensures forall i :: 0 <= i < |pills| ==> (ActivateOnly(pills, k)[i].active <==> i == k)
    ensures forall i :: 0 <= i < |pills| ==> ActivateOnly(pills, k)[i].filter == pills[i].filter
  {
  }

  /**
   * `setExpanded` on a card with both a button and a panel makes them agree
   * and opens or closes the card as asked; on a card missing either it does
   * nothing. Category, display, and which of button, panel and chevron
   * the card has are never touched.
   */
  lemma SetExpandedSyncs(c: Card, expanded: bool)
    ensures c.more.Some? && c.detail.Some? ==>
      Synced(SetExpandedCard(c, expanded)) && IsOpen(SetExpandedCard(c, expanded)) == expanded
    ensures c.more.None? || c.detail.None? ==> SetExpandedCard(c, expanded) == c
    ensures SetExpandedCard(c, expanded).dataType == c.dataType
    ensures SetExpandedCard(c, expanded).display == c.display
    ensures SetExpandedCard(c, expanded).more.Some? == c.more.Some?
    ensures SetExpandedCard(c, expanded).detail.Some? == c.detail.Some?
    ensures SetExpandedCard(c, expanded).more.Some? ==>
      (SetExpandedCard(c, expanded).more.value.chevron.Some? <==> c.more.value.chevron.Some?)
  {
  }

  /** A click on the "More" button of a card with a panel flips whether it is open. */
  lemma ToggleFlips(c: Card)
    requires c.more.Some? && c.detail.Some?
    ensures IsOpen(Toggle(c)) == !IsOpen(c)
  {
  }

  /** Two clicks on the "More" button of a card whose button and panel agree restore it. */
  lemma ToggleTwiceRestores(c: Card)
    requires Synced(c)
    ensures Toggle(Toggle(c)) == c
  {
    if c.more.Some? && c.detail.Some? {
      var once := Toggle(c);
      assert IsOpen(c) == !c.detail.value.hidden;
      assert IsOpen(once) == c.detail.value.hidden;
    }
  }

  /** Whatever the markup started with, after one click two more clicks restore the card. */
  lemma ToggleTwiceAfterToggle(c: Card)
    ensures Toggle(Toggle(Toggle(c))) == Toggle(c)
  {
    SetExpandedSyncs(c, !IsOpen(c));
    ToggleTwiceRestores(Toggle(c));
  }

  /**
   * Expand-all and collapse-all leave every card with display "none"
   * untouched; every other card with a button and a panel ends up open
   * (expand) or closed (collapse) with the two in agreement, and a card
   * missing either is untouched. No card's display, category, or set of
   * button, panel and chevron changes.
   */
  lemma SetShownSkipsHidden(cards: seq<Card>, expanded: bool)
    ensures forall i :: 0 <= i < |cards| && cards[i].display == "none" ==>
      SetShown(cards, expanded)[i] == cards[i]
    ensures forall i :: 0 <= i < |cards| && cards[i].display != "none" && cards[i].more.Some? && cards[i].detail.Some? ==>
      IsOpen(SetShown(cards, expanded)[i]) == expanded && Synced(SetShown(cards, expanded)[i])
    ensures forall i :: 0 <= i < |cards| && (cards[i].more.None? || cards[i].detail.None?) ==>
      SetShown(cards, expanded)[i] == cards[i]
    ensures forall i :: 0 <= i < |cards| && cards[i].more.Some? ==>
      SetShown(cards, expanded)[i].more.Some? &&
      (SetShown(cards, expanded)[i].more.value.chevron.Some? <==> cards[i].more.value.chevron.Some?)
    ensures forall i :: 0 <= i < |cards| ==>
      SetShown(cards, expanded)[i].detail.Some? == cards[i].detail.Some? &&
      SetShown(cards, expanded)[i].display == cards[i].display &&
      SetShown(cards, expanded)[i].dataType == cards[i].dataType
  {
    forall i | 0 <= i < |cards|
      ensures cards[i].display != "none" && cards[i].more.Some? && cards[i].detail.Some? ==>
        IsOpen(SetShown(cards, expanded)[i]) == expanded && Synced(SetShown(cards, expanded)[i])
    {
      SetExpandedSyncs(cards[i], expanded);
    }
  }

  /** Of a sequence of expand-all and collapse-all clicks, only the last one matters. */
  lemma SetShownLastWins(cards: seq<Card>, first: bool, second: bool)
    ensures SetShown(SetShown(cards, first), second) == SetShown(cards, second)
  {
  }

  // ---------- The initSignals closure ----------

  class SignalsPanel {
    const cards: array<Card>
    const pills: array<Pill>
    const hasExpandAll: bool    // an #expandAll button exists
    const hasCollapseAll: bool  // a #collapseAll button exists
    /** The handlers were attached: the page has at least one card and one pill. */
    const wired: bool

    /** `initSignals`: captures the markup and, when it is there, applies the filter "all". */
    constructor (cards: array<Card>, pills: array<Pill>, hasExpandAll: bool, hasCollapseAll: bool)
      modifies cards
      ensures this.cards == cards && this.pills == pills
      ensures this.hasExpandAll == hasExpandAll && this.hasCollapseAll == hasCollapseAll
      ensures wired == (cards.Length > 0 && pills.Length > 0)
      ensures cards[..] == if wired then Filtered(old(cards[..]), "all") else old(cards[..])
    {
      this.cards := cards;
      this.pills := pills;
      this.hasExpandAll := hasExpandAll;
      this.hasCollapseAll := hasCollapseAll;
      this.wired := cards.Length > 0 && pills.Length > 0;
      new;
      if wired {
        ApplyFilter("all");
      }
    }

    /** `applyFilter`: sets every card's display from its category. */
    method ApplyFilter(filter: string)
      modifies cards
      ensures cards[..] == Filtered(old(cards[..]), filter)
    {
      for i := 0 to cards.Length
        invariant forall k :: 0 <= k < i ==> cards[k] == ShowIf(old(cards[k]), filter)
        invariant forall k :: i <= k < cards.Length ==> cards[k] == old(cards[k])
      {
        var t := Lower(cards[i].dataType.GetOr(""));
        var show := filter == "all" || t == filter;
        cards[i] := cards[i].(display := if show then "" else "none");
      }
    }

    /** `setExpanded` on card `i`. */
    method SetExpanded(i: nat, expanded: bool)
      requires i < cards.Length
      modifies cards
      ensures cards[..] == old(cards[..])[i := SetExpandedCard(old(cards[i]), expanded)]
    {
      var card := cards[i];
      if card.more.None? || card.detail.None? {
        return;
      }
      var btn := card.more.value;
      var chevron := if btn.chevron.Some? then Some(if expanded then Up else Down) else None;
      cards[i] := card.(more := Some(btn.(ariaExpanded := Some(if expanded then "true" else "false"), chevron := chevron)),
                        detail := Some(card.detail.value.(hidden := !expanded)));
    }

    /** The pill click handler for pill `k`. */
    method ClickPill(k: nat)
      requires k < pills.Length
      modifies cards, pills
      ensures wired ==> pills[..] == ActivateOnly(old(pills[..]), k)
      ensures wired ==> cards[..] == Filtered(old(cards[..]), PillFilter(old(pills[k])))
      ensures !wired ==> pills[..] == old(pills[..]) && cards[..] == old(cards[..])
    {
      if !wired {
        return;
      }
      for i := 0 to pills.Length
        modifies pills
        invariant forall j :: 0 <= j < i ==> pills[j] == old(pills[j]).(active := false)
        invariant forall j :: i <= j < pills.Length ==> pills[j] == old(pills[j])
      {
        pills[i] := pills[i].(active := false);
      }
      pills[k] := pills[k].(active := true);
      var f := pills[k].filter;
      assert f == old(pills[k]).filter;
      ApplyFilter(Lower(if f.None? || f.value == "" then "all" else f.value));
    }

    /**
     * The document click handler. `target` is the card whose `.signal-more`
     * button was clicked, None for a click outside every such button or for
     * a button outside every card.
     */
    method ClickDocument(target: Option<nat>)
      requires target.Some? ==> target.value < cards.Length
      modifies cards
      ensures wired && target.Some? ==>
        cards[..] == old(cards[..])[target.value := Toggle(old(cards[target.value]))]
      ensures !wired || target.None? ==> cards[..] == old(cards[..])
    {
      if !wired || target.None? {
        return;
      }
      var i := target.value;
      var card := cards[i];
      var isOpen := card.more.Some? && card.more.value.ariaExpanded == Some("true");
      SetExpanded(i, !isOpen);
    }

    /** The loop shared by expand-all and collapse-all: cards with display "none" are skipped. */
    method SetAllShown(expanded: bool)
      modifies cards
      ensures cards[..] == SetShown(old(cards[..]), expanded)
    {
      for i := 0 to cards.Length
        invariant forall k :: 0 <= k < i ==>
          cards[k] == if old(cards[k]).display == "none" then old(cards[k]) else SetExpandedCard(old(cards[k]), expanded)
        invariant forall k :: i <= k < cards.Length ==> cards[k] == old(cards[k])
      {
        if cards[i].display == "none" {
          continue;
        }
        SetExpanded(i, expanded);
      }
    }

    /** The #expandAll click handler. */
    method ClickExpandAll()
      modifies cards
      ensures cards[..] == if wired && hasExpandAll then SetShown(old(cards[..]), true) else old(cards[..])
    {
      if wired && hasExpandAll {
        SetAllShown(true);
      }
    }

    /** The #collapseAll click handler. */
    method ClickCollapseAll()
      modifies cards
      ensures cards[..] == if wired && hasCollapseAll then SetShown(old(cards[..]), false) else old(cards[..])
    {
      if wired && hasCollapseAll {
        SetAllShown(false);
      }
    }
  }
}
