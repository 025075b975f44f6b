/**
 * The structural check (`check_rss_for_required_elements`) over an
 * already-parsed feed. In order it looks for: a `channel` under the root; a
 * `title`, `link` and `description` under the channel; at least one `item`;
 * and a `title` and `link` under every item.
 *
 * The per-item step appends to `missing_items`, a name that is never bound,
 * so the first missing item field raises Python's `NameError` rather than a
 * missing-element error, and the guard after it, which reads the list that
 * stays empty, never fires. `RequiredElementsOutcome` and the method keep that
 * behaviour; `IntendedRequiredElementsOutcome` is the same check with the
 * append going to `missing_elements`.
 */
module RequiredElements {
  import opened Optional
  import opened FeedTree
  import opened Outcomes

  const NoChannelMessage: string := "No channel element found in RSS feed"
  const MissingFieldsMessage: string := "Required elements missing from RSS feed"
  const NoItemsMessage: string := "Required items missing from RSS feed"
  const ItemFieldsMessage: string := "Required item-elements missing from RSS feed"
  /** The name the per-item step appends to, which nothing binds. */
  const UnboundName: string := "missing_items"

  const ChannelFields: seq<string> := ["title", "link", "description"]
  const ItemFields: seq<string> := ["title", "link"]

  /**
   * The feed file as the check finds it: not there, there but not well-formed
   * XML, or parsed into a tree. `content` is the file's text, which the
   * textual checks read; the parser itself is not modelled.
   */
  datatype FeedFile = Absent | Unparseable(content: string) | Parsed(content: string, root: Element)

  /** The names among `names` that `e` has no direct child for, in the order of `names`. */
  function MissingNames(e: Element, names: seq<string>): (r: seq<string>)
    ensures |r| <= |names|
  {
    if names == [] then []
    else
      var last := names[|names| - 1];
      MissingNames(e, names[..|names| - 1]) + (if HasChild(e, last) then [] else [last])
  }

  /** A name is reported missing exactly when it is asked for and `e` has no child with it. */
  lemma {:induction false} MissingNamesMembers(e: Element, names: seq<string>)
    ensures forall n :: n in MissingNames(e, names) <==> n in names && !HasChild(e, n)
  {
    if names != [] {
      MissingNamesMembers(e, names[..|names| - 1]);
      assert names == names[..|names| - 1] + [names[|names| - 1]];
    }
  }

  /** The missing channel fields are exactly the absent ones among title, link, description, in that order. */
  lemma ChannelFieldsMissing(channel: Element)
    ensures MissingNames(channel, ChannelFields) ==
      (if HasChild(channel, "title") then [] else ["title"]) +
      (if HasChild(channel, "link") then [] else ["link"]) +
      (if HasChild(channel, "description") then [] else ["description"])
  {
    var two := ChannelFields[..2];
    var one := two[..1];
    assert two == ["title", "link"] && one == ["title"] && one[..0] == [];
    assert MissingNames(channel, one) == (if HasChild(channel, "title") then [] else ["title"]);
    assert MissingNames(channel, two) ==
      MissingNames(channel, one) + (if HasChild(channel, "link") then [] else ["link"]);
  }

  /** An item carries both a `title` and a `link`. */
  predicate ItemComplete(item: Element)
  {
    HasChild(item, "title") && HasChild(item, "link")
  }

  /** How far the channel-level checks get: an outcome, or the list of items to check. */
  datatype Stage = Finished(outcome: Outcome) | ItemsReached(items: seq<Element>)

  /** Every step before the per-item loop. */
  function ChannelStage(feed: FeedFile): Stage
  {
    match feed
    case Absent => Finished(Returned(false))
    case Unparseable(_) => Finished(Returned(false))
    case Parsed(_, root) =>
      match Find(root, "channel")
      case None => Finished(Raised(MissingRssElement(NoChannelMessage, NoDetails)))
      case Some(channel) =>
        var missing := MissingNames(channel, ChannelFields);
        if missing != [] then
          Finished(Raised(MissingRssElement(MissingFieldsMessage, MissingFields(missing))))
        else
          var items := FindAll(channel, "item");
          if items == [] then Finished(Raised(MissingRssElement(NoItemsMessage, NoDetails)))
          else ItemsReached(items)
  }

  /** The per-item loop as written: any incomplete item ends in the `NameError`. */
  function ItemsOutcome(items: seq<Element>): Outcome
  {
    if forall k :: 0 <= k < |items| ==> ItemComplete(items[k]) then Returned(true)
    else Raised(NameError(UnboundName))
  }

  /** What `check_rss_for_required_elements` ends in, as written. */
  function RequiredElementsOutcome(feed: FeedFile): Outcome
  {
    match ChannelStage(feed)
    case Finished(o) => o
    case ItemsReached(items) => ItemsOutcome(items)
  }

  /** A parsed tree that satisfies every structural requirement, stated without the check's order. */
  predicate CompleteFeed(root: Element)
  {
    && HasChild(root, "channel")
    && var channel := Find(root, "channel").value;
       && (forall n :: n in ChannelFields ==> HasChild(channel, n))
       && HasChild(channel, "item")
       && (forall item :: item in FindAll(channel, "item") ==> ItemComplete(item))
  }

  /**
   * A missing or unparseable file gives false; a parsed tree without a
   * `channel` gives a missing-element error with no details.
   */
  lemma EarlyOutcomes(feed: FeedFile)
    ensures !feed.Parsed? ==> RequiredElementsOutcome(feed) == Returned(false)
    ensures feed.Parsed? && !HasChild(feed.root, "channel") ==>
      RequiredElementsOutcome(feed) == Raised(MissingRssElement(NoChannelMessage, NoDetails))
  {
  }

  /**
   * Under a `channel`: missing channel fields give an error listing exactly
   * those fields; otherwise no items give an error with no details; otherwise
   * an incomplete item gives the `NameError`.
   */
  lemma ChannelOutcomes(feed: FeedFile)
    requires feed.Parsed? && HasChild(feed.root, "channel")
    ensures var channel := Find(feed.root, "channel").value;
      var missing := MissingNames(channel, ChannelFields);
      && (missing != [] ==>
            RequiredElementsOutcome(feed) ==
            Raised(MissingRssElement(MissingFieldsMessage, MissingFields(missing))))
      && (missing == [] && !HasChild(channel, "item") ==>
            RequiredElementsOutcome(feed) == Raised(MissingRssElement(NoItemsMessage, NoDetails)))
      && (missing == [] && (exists item :: item in FindAll(channel, "item") && !ItemComplete(item)) ==>
            RequiredElementsOutcome(feed) == Raised(NameError(UnboundName)))
  {
    var channel := Find(feed.root, "channel").value;
    var items := FindAll(channel, "item");
    if exists item :: item in items && !ItemComplete(item) {
      var item :| item in items && !ItemComplete(item);
      var k :| 0 <= k < |items| && items[k] == item;
    }
  }

  /** A parsed, complete feed passes. */
  lemma CompleteFeedPasses(feed: FeedFile)
    requires feed.Parsed? && CompleteFeed(feed.root)
    ensures RequiredElementsOutcome(feed) == Returned(true)
  {
    var channel := Find(feed.root, "channel").value;
    assert "title" in ChannelFields && "link" in ChannelFields && "description" in ChannelFields;
    ChannelFieldsMissing(channel);
    var items := FindAll(channel, "item");
    assert ChannelStage(feed) == ItemsReached(items);
    assert forall k :: 0 <= k < |items| ==> items[k] in items;
  }

  /** Only a parsed, complete feed passes. */
  lemma PassingFeedIsComplete(feed: FeedFile)
    requires RequiredElementsOutcome(feed) == Returned(true)
    ensures feed.Parsed? && CompleteFeed(feed.root)
  {
    assert ChannelStage(feed).ItemsReached?;
    var channel := Find(feed.root, "channel").value;
    MissingNamesMembers(channel, ChannelFields);
    var items := FindAll(channel, "item");
    assert ChannelStage(feed).items == items;
    forall item | item in items
      ensures ItemComplete(item)
    {
      var k :| 0 <= k < |items| && items[k] == item;
    }
  }

  /** The check returns true exactly for a parsed, complete feed. */
  lemma PassesExactlyWhenComplete(feed: FeedFile)
    ensures RequiredElementsOutcome(feed) == Returned(true) <==> feed.Parsed? && CompleteFeed(feed.root)
  {
    if feed.Parsed? && CompleteFeed(feed.root) {
      CompleteFeedPasses(feed);
    }
    if RequiredElementsOutcome(feed) == Returned(true) {
      PassingFeedIsComplete(feed);
    }
  }

  /** As written, the per-item guard never fires: no outcome carries an item's missing fields. */
  lemma ItemGuardNeverFires(feed: FeedFile)
    ensures !(RequiredElementsOutcome(feed).Raised? &&
              RequiredElementsOutcome(feed).error.MissingRssElement? &&
              RequiredElementsOutcome(feed).error.details.MissingItemFields?)
  {
  }

  /** A feed whose only item lacks a `title`: well-formed but for that, and it ends in `NameError`. */
  function ItemWithoutTitleFeed(): FeedFile
  {
    var title := Element("title", []);
    var link := Element("link", []);
    var item := Element("item", [link]);
    var channel := Element("channel", [title, link, Element("description", []), item]);
    Parsed("", Element("rss", [channel]))
  }

  lemma ItemWithoutTitleRaisesNameError()
    ensures RequiredElementsOutcome(ItemWithoutTitleFeed()) == Raised(NameError(UnboundName))
  {
    var feed := ItemWithoutTitleFeed();
    var channel := feed.root.children[0];
    assert feed.root.children[0].tag == "channel";
    assert Find(feed.root, "channel") == Some(channel);
    assert channel.children[0].tag == "title" && channel.children[1].tag == "link" &&
           channel.children[2].tag == "description";
    assert HasChild(channel, "title") && HasChild(channel, "link") && HasChild(channel, "description");
    ChannelFieldsMissing(channel);
    var item := channel.children[3];
    assert item.children[0].tag != "title";
    assert !ItemComplete(item);
    assert channel.children[3].tag == "item";
    assert item in FindAll(channel, "item");
    ChannelOutcomes(feed);
  }

  /** Index of the first incomplete item, or `|items|` when all are complete. */
  function FirstIncomplete(items: seq<Element>): (r: nat)
    ensures r <= |items|
    ensures r < |items| ==> !ItemComplete(items[r])
    ensures forall j :: 0 <= j < r ==> ItemComplete(items[j])
  {
    if items == [] then 0
    else if !ItemComplete(items[0]) then 0
    else 1 + FirstIncomplete(items[1..])
  }

  /**
   * The per-item loop with the append going to `missing_elements`: the guard
   * then fires at the first missing field of the first incomplete item.
   */
  function IntendedItemsOutcome(items: seq<Element>): Outcome
  {
    var k := FirstIncomplete(items);
    if k == |items| then Returned(true)
    else
      var item := items[k];
      var field := if HasChild(item, "title") then "link" else "title";
      Raised(MissingRssElement(ItemFieldsMessage, MissingItemFields(item, [field])))
  }

  /** The required-element check with the per-item append corrected. */
  function IntendedRequiredElementsOutcome(feed: FeedFile): Outcome
  {
    match ChannelStage(feed)
    case Finished(o) => o
    case ItemsReached(items) => IntendedItemsOutcome(items)
  }

  /**
   * Corrected, the per-item step passes exactly when every item is complete,
   * and otherwise reports the first incomplete item with one field it lacks.
   */
  lemma IntendedItemsCheck(items: seq<Element>)
    ensures IntendedItemsOutcome(items) == Returned(true) <==>
            forall k :: 0 <= k < |items| ==> ItemComplete(items[k])
    ensures IntendedItemsOutcome(items).Raised? ==>
      var e := IntendedItemsOutcome(items).error;
      && e.MissingRssElement? && e.details.MissingItemFields?
      && exists k :: 0 <= k < |items| && e.details.item == items[k] &&
           (forall j :: 0 <= j < k ==> ItemComplete(items[j])) &&
           |e.details.missing| == 1 && e.details.missing[0] in ItemFields &&
           !HasChild(items[k], e.details.missing[0])
  {
    var k := FirstIncomplete(items);
    if k < |items| {
      assert !ItemComplete(items[k]);
    }
  }

  /**
   * The correction changes which error an incomplete item raises, never
   * whether the check returns true; every other outcome is the same.
   */
  lemma FixKeepsVerdict(feed: FeedFile)
    ensures RequiredElementsOutcome(feed) == Returned(true) <==>
            IntendedRequiredElementsOutcome(feed) == Returned(true)
    ensures ChannelStage(feed).Finished? ==>
            RequiredElementsOutcome(feed) == IntendedRequiredElementsOutcome(feed)
  {
    if ChannelStage(feed).ItemsReached? {
      IntendedItemsCheck(ChannelStage(feed).items);
    }
  }

  /** `check_rss_for_required_elements()`, given the feed file it would read. */
  method CheckRssForRequiredElements(feed: FeedFile) returns (o: Outcome)
    ensures o == RequiredElementsOutcome(feed)
  {
    if !feed.Parsed? {
      return Returned(false);
    }
    var channel := Find(feed.root, "channel");
    if channel.None? {
      return Raised(MissingRssElement(NoChannelMessage, NoDetails));
    }
    var missingElements: seq<string> := [];
    for k := 0 to |ChannelFields|
      invariant missingElements == MissingNames(channel.value, ChannelFields[..k])
    {
      var element := ChannelFields[k];
      if Find(channel.value, element).None? {
        missingElements := missingElements + [element];
      }
      assert ChannelFields[..k + 1][..k] == ChannelFields[..k];
    }
    assert ChannelFields[..|ChannelFields|] == ChannelFields;
    if |missingElements| > 0 {
      return Raised(MissingRssElement(MissingFieldsMessage, MissingFields(missingElements)));
    }
    var items := FindAll(channel.value, "item");
    if items == [] {
      return Raised(MissingRssElement(NoItemsMessage, NoDetails));
    }
    assert ChannelStage(feed) == ItemsReached(items);
    o := CheckItems(items);
  }

  /** The per-item loop of `check_rss_for_required_elements`, as written. */
  method CheckItems(items: seq<Element>) returns (o: Outcome)
    ensures o == ItemsOutcome(items)
  {
    for i := 0 to |items|
      invariant forall j :: 0 <= j < i ==> ItemComplete(items[j])
    {
      var item := items[i];
      var missingElements: seq<string> := [];
      for f := 0 to |ItemFields|
        invariant missingElements == []
        invariant forall g :: 0 <= g < f ==> HasChild(item, ItemFields[g])
      {
        if Find(item, ItemFields[f]).None? {
          // the append targets the unbound `missing_items`
          assert !ItemComplete(items[i]);
          return Raised(NameError(UnboundName));
        }
        if |missingElements| > 0 {
          return Raised(MissingRssElement(ItemFieldsMessage, MissingItemFields(item, missingElements)));
        }
      }
      assert HasChild(item, ItemFields[0]) && HasChild(item, ItemFields[1]);
      assert ItemComplete(items[i]);
    }
    return Returned(true);
  }
}
