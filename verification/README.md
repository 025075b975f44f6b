# RSS feed validator, modelled in Dafny

This project models the feed validator of a Quarto blog. After the site is built, the validator checks the generated `_site/index.xml` feed in three ways:

- **Structure.** The parsed tree must have a `channel`. The channel must have `title`, `link` and `description`, plus at least one `item`. Every item must have a `title` and a `link`.
- **CDATA balance.** The raw text must contain as many `<![CDATA[` markers as `]]>` markers.
- **Non-printable characters.** The raw text must contain no character whose code point is below 32, other than newline, carriage return and tab. DEL (U+007F) and the C1 controls are not flagged. It must also contain none of U+FFFE, U+FFFF or U+FFFD.

The top-level routine first builds the site, then runs the three checks. It answers true only when all three pass. Any exception raised by the checks or by reading the feed is turned into false. The build call at `tests/test_rss_feed.py:158` is outside the `try`, so an exception from the build escapes; the build is not part of this model.

Files and modules:

- `optional.dfy` (`Optional`): the `Option` type returned by `find`.
- `feed_tree.dfy` (`FeedTree`): an abstract parsed tree. `Element(tag, children)`, with ElementTree's `find` (first direct child with a tag) and `findall` (all direct children with a tag).
- `outcomes.dfy` (`Outcomes`): `Outcome` is either `Returned(bool)` or `Raised(ValidationError)`. `ValidationError` has one constructor per exception class the checks raise:
  - `MissingRssElement` for `MissingRSSElementError`;
  - `CdataMismatch` for the `RSSValidationError` raised by the CDATA check;
  - `BinaryContent` for `BinaryContentError`;
  - `NameError` for Python's error on an unbound name.

  The three constructors for the validator's own exception classes carry the message and the `details` mapping as typed fields. `NameError` carries only the unbound name.
- `cdata.dfy` (`Cdata`): the CDATA balance check.
  - `StrCount` is Python's greedy, non-overlapping `str.count`.
  - `Count` counts every position where the pattern starts.
  - `StrCountIsCount` proves the two equal for any pattern with no border (no proper suffix that is also a prefix). Both markers are shown to be borderless.
  - `CdataVerdictIgnoresOrder` shows that only the totals matter. Take any text built from markers and stretches of plain text, where plain text contains neither marker and does not end in a proper prefix of one. It passes exactly when it has as many openers as closers, in whatever order.
- `binary_scan.dfy` (`BinaryScan`): the non-printable-character scan and the check built on it.
  - `FindBinaryCharacters` is the left-to-right loop, proved to return `Findings(s)`.
  - `CheckForBinaryContent` is the loop that builds one location per finding, proved to return `BinaryOutcome(s)`.
  - Lemmas characterise both specifications: which positions are reported, their order, the display forms (with a round trip of the four hex digits), and the context windows.
- `required_elements.dfy` (`RequiredElements`): the structural check over a `FeedFile`, which is `Absent`, `Unparseable(content)` or `Parsed(content, root)`. The model keeps the source's unbound-name defect (see Findings).
- `rss_validation.dfy` (`RssValidation`): the combining step. `ValidateRssFeed` runs the three checks in the source's order and catches their errors as false. `FeedVerdictMeans` says in plain terms what an accepted feed is.

Behaviour of the code worth noting:

- **Per-item fields.** An item lacking `title` or `link` raises `NameError` at `tests/test_rss_feed.py:84`, not a missing-element error (see Findings).
- **Channel count.** Only the first `channel` is examined. Further channels are ignored.
- **Context window.** The context is the slice `[pos-20, pos+20)`, clipped to the text: 20 characters before, the character itself, and 19 after.
- **Build failures.** The build call at `tests/test_rss_feed.py:158` sits outside the `try`, so its exception escapes the validator.

## Model

| member | source | states |
|---|---|---|
| FeedTree.Find | tests/test_rss_feed.py:65 | `find` gives nothing exactly when no direct child has the tag. Otherwise it gives a child with that tag, and no earlier child has the tag. |
| FeedTree.FindAll | tests/test_rss_feed.py:77 | `findall` gives only direct children with the tag, and every direct child with the tag is among them. It is empty exactly when no child has the tag. |
| FeedTree.FilterMultiplicity | tests/test_rss_feed.py:77 | The children `findall` collects keep every copy of each child with the tag and no copy of any other child. |
| Cdata.StrCountIsCount | tests/test_rss_feed.py:99-100 | For a pattern that cannot overlap itself, Python's non-overlapping `count` equals the number of positions where the pattern starts. |
| Cdata.NoMatchInside | tests/test_rss_feed.py:99-100 | No second match of a borderless pattern starts inside a first one. This is why the greedy scan loses nothing. |
| Cdata.CdataOpenBorderless | tests/test_rss_feed.py:99 | `<![CDATA[` has no border, so its occurrences never overlap. |
| Cdata.CdataCloseBorderless | tests/test_rss_feed.py:100 | `]]>` has no border, so its occurrences never overlap. |
| Cdata.CheckCdataSections | tests/test_rss_feed.py:97-110 | Returns true exactly when the two markers occur equally often. Otherwise it raises with `opens`, `closes` and `difference = abs(opens - closes)`, where the difference is positive. It never returns false. |
| Cdata.CountConcat | tests/test_rss_feed.py:99-100 | The occurrences in a concatenation are the sum of the parts' occurrences when no occurrence straddles the seam. |
| Cdata.RenderCounts | tests/test_rss_feed.py:99-100 | In a text built from markers and plain text (no marker inside, no proper prefix of one at its end), the counted markers are exactly the marker pieces. |
| Cdata.CdataVerdictIgnoresOrder | tests/test_rss_feed.py:99-101 | Rearranging the pieces never changes the verdict. The text passes exactly when it has as many openers as closers. |
| Cdata.CloseBeforeOpenPasses | tests/test_rss_feed.py:99-101 | `]]><![CDATA[` passes: misordered markers go unnoticed. |
| BinaryScan.DisplayFlagsExactly | tests/test_rss_feed.py:127-132 | A character is recorded exactly when its code point is below 32 and it is not `\n`, `\r` or `\t`, or it is U+FFFE, U+FFFF or U+FFFD. The first two kinds display as `\u` plus four lowercase hex digits that read back as the code point. U+FFFD displays as the fixed label. |
| BinaryScan.Hex4RoundTrip | tests/test_rss_feed.py:128 | The four-digit, zero-padded lowercase hex form of a code point below 0x10000 reads back as that code point. |
| BinaryScan.FindingsUpToSound | tests/test_rss_feed.py:125-133 | After `n` characters, each record names a position below `n` holding a flagged character, with that character and its display form. |
| BinaryScan.FindingsUpToSorted | tests/test_rss_feed.py:125-133 | The records are in strictly increasing position order. |
| BinaryScan.FindingsUpToComplete | tests/test_rss_feed.py:125-133 | Every flagged position below `n` has a record. |
| BinaryScan.FindingsCharacterization | tests/test_rss_feed.py:119-133 | Position `i` is reported exactly when `s[i]` is non-printable. Records are in strictly increasing position order, each carries `s[pos]`, and there are at most `len(s)` of them. |
| BinaryScan.FindBinaryCharacters | tests/test_rss_feed.py:119-133 | The single left-to-right loop returns exactly the records `Findings(s)` characterised above. |
| BinaryScan.EscapeNewlinesFacts | tests/test_rss_feed.py:144 | Escaping leaves no raw newline and adds one character per newline. For text without backslashes, reading each backslash-`n` pair back as a newline undoes it. |
| BinaryScan.EscapeWithoutNewlines | tests/test_rss_feed.py:144 | Text without newlines is left unchanged by the escaping. |
| BinaryScan.ContextFacts | tests/test_rss_feed.py:142-146 | A context contains no raw newline, and its window is at most 40 characters. For a position inside the text, the window holds that position's character at offset `pos - max(0, pos-20)`. |
| BinaryScan.Locations | tests/test_rss_feed.py:140-147 | There is one location per finding, in the same order. Each carries the finding's position, its display form and the context `"..." + escaped window + "..."`. |
| BinaryScan.BinaryOutcomeCharacterization | tests/test_rss_feed.py:136-152 | The check returns true exactly when no character is non-printable, and it never returns false. When it raises, `count` equals the number of findings and the number of locations. Each location carries its finding's position and display form, and a context with no raw newline. |
| BinaryScan.SingleNonPrintable | tests/test_rss_feed.py:138-151 | Text with a single non-printable character raises with count 1 and exactly one location, at that character's position. |
| BinaryScan.CheckForBinaryContent | tests/test_rss_feed.py:136-152 | The scan followed by the location-building loop returns exactly `BinaryOutcome(s)` characterised above. |
| RequiredElements.MissingNamesMembers | tests/test_rss_feed.py:69-72 | A name is reported missing exactly when it was asked for and the element has no child with it. |
| RequiredElements.ChannelFieldsMissing | tests/test_rss_feed.py:68-72 | The missing channel fields are exactly the absent ones among `title`, `link`, `description`, in that order. |
| RequiredElements.EarlyOutcomes | tests/test_rss_feed.py:59-67 | A missing or unparseable file gives false. A tree with no `channel` raises a missing-element error with empty details. |
| RequiredElements.ChannelOutcomes | tests/test_rss_feed.py:68-89 | Under a channel, missing fields raise an error whose `missing_elements` lists exactly those fields. Otherwise zero items raise an error with empty details. Otherwise an incomplete item raises `NameError`. |
| RequiredElements.PassesExactlyWhenComplete | tests/test_rss_feed.py:57-91 | The check returns true exactly for a parsed tree whose first channel has all three fields and at least one item, with every item having a `title` and a `link`. |
| RequiredElements.CompleteFeedPasses | tests/test_rss_feed.py:65-91 | Every parsed feed with a complete tree passes the check. |
| RequiredElements.PassingFeedIsComplete | tests/test_rss_feed.py:57-91 | Only a parsed feed with a complete tree passes the check. |
| RequiredElements.ItemGuardNeverFires | tests/test_rss_feed.py:85-89 | As written, no outcome ever carries an item's missing fields. |
| RequiredElements.ItemWithoutTitleRaisesNameError | tests/test_rss_feed.py:84 | A feed that is complete except for an item without a `title` raises `NameError`, not a missing-element error. |
| RequiredElements.IntendedItemsCheck | tests/test_rss_feed.py:80-89 | With the append going to `missing_elements`, the item step passes exactly when every item is complete. Otherwise it raises a missing-element error naming the first incomplete item and one field that item lacks. |
| RequiredElements.FixKeepsVerdict | tests/test_rss_feed.py:80-89 | The correction changes only which error an incomplete item raises. Whether the check returns true is unchanged, and every outcome decided before the items is identical. |
| RequiredElements.CheckRssForRequiredElements | tests/test_rss_feed.py:57-94 | The check's steps, including the loop accumulating missing channel fields, return exactly `RequiredElementsOutcome(feed)`. |
| RequiredElements.CheckItems | tests/test_rss_feed.py:80-91 | The per-item loop as written returns exactly `ItemsOutcome(items)`: true when every item is complete, `NameError` otherwise. |
| RssValidation.FeedVerdictMeans | tests/test_rss_feed.py:159-169 | The validator accepts exactly when four conditions hold: the feed was parsed, its tree is complete, the CDATA markers are balanced in count, and no character is non-printable. |
| RssValidation.VerdictIgnoresItemFix | tests/test_rss_feed.py:159-169 | The overall verdict is the same whether the per-item step is as written or corrected. |
| RssValidation.ValidateRssFeed | tests/test_rss_feed.py:155-169 | The validator runs the three checks in order, turns any raised error or unopenable file into false, and returns `FeedVerdict(feed)`. |

## Left out

- The site build (`render_blog`, `tests/test_rss_feed.py:49-54`) is a subprocess call to an external tool. `ValidateRssFeed` starts after a successful build. The build's exception, which escapes the `try`, is not modelled.
- Locating the project root, testing whether the file exists, and reading the file are filesystem I/O (`tests/test_rss_feed.py:44-46`, `59-62`, `161-163`). The file is an input (`FeedFile`): either absent, or present with its text. The model assumes the file is the same both times it is read.
- Text decoding is not modelled. The text is a sequence of Unicode scalar values. Errors raised while decoding the file are not modelled.
- The XML parser (`ET.parse`) is a library. Its result is an input: either an abstract `Unparseable` file (the caught `ParseError`) or an `Element` tree. The model only checks tags and direct children. Attributes, text, namespaces and other exceptions from the parser are not modelled.
- Exception `__str__` formatting and all `print` output (`tests/test_rss_feed.py:17-20`) are not modelled. Error messages and details are kept as data.
- The unused `requests` import, the `sys.exit` entry point and the pytest wrapper (`tests/test_rss_feed.py:172-179`) are not modelled.
- RequiredElements.CheckItems: the per-item loop is a separate method rather than part of `CheckRssForRequiredElements`. Inside the item loop it uses a fresh local for the list the source reuses; the list is always empty there, so nothing changes.
- RssValidation.ValidateRssFeed: exceptions other than the modelled ones are not modelled. In particular, `check_rss_for_required_elements` catches `ET.ParseError`, and other errors from opening or decoding the file are left out.

## Findings

| source | as written | input that shows it | evidently intended | confidence | as-written member | corrected member |
|---|---|---|---|---|---|---|
| tests/test_rss_feed.py:84 | An item lacking `title` or `link` appends to `missing_items`, a name never bound. This raises `NameError`, and the guard at line 85, which reads the always-empty `missing_elements`, never fires. | A feed whose channel has `title`, `link` and `description` and one `item` holding only a `link` | Append to `missing_elements`, so the guard raises `MissingRSSElementError` naming the item and its missing field | not executed | RequiredElements.ItemWithoutTitleRaisesNameError | RequiredElements.IntendedItemsCheck |

The corrected check is `RequiredElements.IntendedRequiredElementsOutcome`. `RssValidation.VerdictIgnoresItemFix` proves that the validator's verdict is the same under the corrected check. Both the `NameError` and the intended error end in false, so the defect changes only which error is raised.
