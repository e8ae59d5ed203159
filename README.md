# Hackathon discovery front end — client-side logic

This project models the part of a hackathon discovery web front end that runs in the browser. That part works on in-memory data: the constant event catalogue, the list of bookmarked event ids, the event rows fetched for the organiser, and the skills text of the profile form. It covers:

- **The catalogue.** The `Hackathon` record and its constant list of five events (`Catalogue`). The events' `YYYY-MM-DD` dates are in `Dates`.
- **The home page.** A case-insensitive search over title, tags and description, combined with optional status and platform selections. Also the reset that clears all three (`Home`).
- **The filter bar.** Badges that toggle the status and platform selections, the rule that shows the reset control, and the badge caption (`FilterBar`).
- **The bookmark list.** It is kept in local storage under the key `"bookmarks"`. A bookmark button removes every copy of its id or appends the id (`BookmarkStore`). The button is used by the event card (`EventCard`) and by the detail page (`EventDetail`).
- **The event card.** The status colour class and the upper-cased status ribbon (`EventCard`).
- **The detail page.** Lookup by id, and the list of up to three related events (`EventDetail`).
- **The bookmarks page.** The catalogue entries whose ids are stored (`Bookmarks`).
- **The organiser's analytics.** The participant total and the numbers of `upcoming` and `completed` events among the organiser's fetched rows (`Analytics`).
- **The profile form.** Its skills field: split on commas, trim each piece, drop the empty ones (`ProfileSetup`).

There are three helper modules:

- `Lists` gives JavaScript's `Array.prototype.filter` and its laws.
- `Text` gives the string methods the source calls: `toLowerCase`, `toUpperCase`, `includes`, `trim`, `split`, and `replace` with a one-character pattern. It also defines three operations the source never calls. They exist only to state properties:
  - `Join` states the round trip of `split`.
  - `IndexOf` states which dash `replace` changes.
  - `LessOrEqual`, JavaScript's `<=` on strings, states that every catalogue event starts no later than it ends. The front end itself never compares dates.
- `Options` gives an `Option` type.

Pure expressions become functions. Component state that event handlers assign becomes a class with fields:

- `Home.HomePage`
- `EventCard.Card`
- `EventDetail.DetailPage`
- `Bookmarks.BookmarksPage`
- `Analytics.AnalyticsPage`
- `BookmarkStore.Store`, whose list the card's and the detail page's `ToggleBookmark` methods rewrite

## Model

| member | source | states |
|---|---|---|
| Catalogue.Status.Name | src/data/hackathons.ts:12 | every event status is one of `upcoming`, `ongoing`, `closed`, `ending-soon` |
| Catalogue.CatalogueIdsDistinct | src/data/hackathons.ts:15-81 | no two catalogue entries share an id |
| Catalogue.EntryId | src/data/hackathons.ts:17 | the entries carry the one-digit ids `1` to `5`, in order |
| Catalogue.EntryDatesIso | src/data/hackathons.ts:20-21 | each entry has at least one tag, and both of its dates are `YYYY-MM-DD` |
| Catalogue.CatalogueDatesIso | src/data/hackathons.ts:15-81 | every entry has at least one tag, and both of its dates are `YYYY-MM-DD` |
| Catalogue.EntryDatesOrdered | src/data/hackathons.ts:15-81 | for each entry, the start date is at most the end date as a JavaScript string comparison |
| Catalogue.CatalogueDatesOrdered | src/data/hackathons.ts:15-81 | every entry starts no later than it ends, as strings |
| Catalogue.CatalogueWellFormed | src/data/hackathons.ts:15-81 | every entry has tags and ISO dates, and its start is not after its end |
| Catalogue.CatalogueChronological | src/data/hackathons.ts:15-81 | every entry's start day, counted as year·10000 + month·100 + day, is at most its end day |
| Dates.IsoDateOrderIsChronological | src/data/hackathons.ts:5-6 | for `YYYY-MM-DD` strings, `a <= b` holds exactly when a's year, month, day is not later than b's |
| Dates.DigitStringOrder | src/data/hackathons.ts:5-6 | for digit strings of equal length, string order and numeric order agree, in both directions |
| Dates.NumberAppend | src/data/hackathons.ts:5-6 | the digits of x followed by those of y spell x·10^(length of y) + y |
| Dates.StripDashes | src/data/hackathons.ts:5-6 | dashes at the same places in two dates do not change how the dates compare |
| Dates.DigitsSpellDay | src/data/hackathons.ts:5-6 | the date's digits without the dashes spell year·10000 + month·100 + day |
| Lists.Filter | src/pages/Index.tsx:29 | `filter` keeps only elements that pass the test, keeps every element that passes, and never grows the list |
| Lists.FilterIsSubsequence | src/pages/Index.tsx:29 | `filter` keeps the original order |
| Lists.FilterAppend | src/pages/EventDetail.tsx:72-76 | filtering a concatenation concatenates the filtered parts |
| Lists.FilterSplitAt | src/pages/EventDetail.tsx:72-76 | an element that passes the test sits in the result between what passes before it and what passes after it |
| Lists.FilterKeepsAll | src/components/EventCard.tsx:28 | a filter that every element passes returns the list unchanged |
| Lists.FilterCongruent | src/pages/Bookmarks.tsx:17 | tests that agree on every element give the same result |
| Lists.FilterMonotone | src/pages/Index.tsx:38 | a stricter test gives a subsequence of what a weaker test gives |
| Lists.FilterCount | src/components/EventCard.tsx:28 | an element that passes keeps all its copies, and one that fails loses all of them |
| Lists.FilterDisjointLengths | src/pages/Analytics.tsx:51-52 | two tests that no element passes together select at most as many elements as the list has |
| Lists.SubsequenceKeepsDistinct | src/pages/Bookmarks.tsx:17 | a subsequence of a list with distinct keys has distinct keys |
| Lists.SubsequenceMembers | src/pages/Index.tsx:29 | a subsequence is no longer than its list, and each of its elements is in the list |
| Text.ToLower | src/pages/Index.tsx:31 | `toLowerCase` keeps the length and maps ASCII capitals to small letters, one character at a time |
| Text.ToUpper | src/components/EventCard.tsx:60 | `toUpperCase` keeps the length and maps ASCII small letters to capitals, one character at a time |
| Text.Includes | src/pages/Index.tsx:31-33 | every string includes the empty string, and a string includes only strings no longer than itself |
| Text.IncludesIffOccurs | src/pages/Index.tsx:31-33 | `s.includes(sub)` holds exactly when sub occurs in s at some position |
| Text.Trim | src/pages/ProfileSetup.tsx:37 | `trim` returns a piece of the input with no white space at either end, and everything before and after that piece is white space. It is empty exactly when the input is all white space, and a trimmed input is unchanged |
| Text.TrimBothRemovesWhiteSpace | src/pages/ProfileSetup.tsx:37 | only white space is removed before and after what trimming leaves |
| Text.TrimKeepsOut | src/pages/ProfileSetup.tsx:37 | a character absent from the input is absent from the trimmed input |
| Text.Split | src/pages/ProfileSetup.tsx:37 | `split(',')` gives at least one piece, and no piece holds a comma |
| Text.SplitCount | src/pages/ProfileSetup.tsx:37 | `split` gives exactly one more piece than there are separators |
| Text.TrimBothEmpty | src/pages/ProfileSetup.tsx:37 | trimming leaves nothing exactly when the input is all white space |
| Text.TrimBothOccurs | src/pages/ProfileSetup.tsx:37 | what trimming leaves is the piece of the input that starts after the leading white space |
| Text.JoinSplit | src/pages/ProfileSetup.tsx:37 | joining the pieces of a split with its separator gives back the input |
| Text.SplitJoin | src/pages/ProfileSetup.tsx:37 | splitting a join of separator-free pieces gives back the pieces |
| Text.IndexOf | src/components/FilterBar.tsx:40 | the result is -1 when the character is absent, else the position of its first occurrence |
| Text.ReplaceFirst | src/components/FilterBar.tsx:40 | `replace("-", " ")` changes only the first dash, keeps the length, and leaves a dash-free string as it is |
| Text.LessOrEqual | src/data/hackathons.ts:20-21 | a prefix is at most the longer string, and a non-empty string is at most another only if its first character is not greater |
| Text.LessOrEqualAt | src/data/hackathons.ts:20-21 | strings that agree up to a position and are smaller there are ordered |
| Text.LessOrEqualConcat | src/data/hackathons.ts:20-21 | when two leading parts have the same length, they decide the order unless they are equal |
| BookmarkStore.Store.constructor | src/components/EventCard.tsx:18 | a browser that has stored nothing reads as an empty list |
| BookmarkStore.Store.Ids | src/components/EventCard.tsx:18 | the list read is the stored one, or `[]` when the key is missing |
| BookmarkStore.Store.Save | src/components/EventCard.tsx:31 | after a write, the stored list is the list written |
| BookmarkStore.Toggled | src/components/EventCard.tsx:27-29 | un-bookmarking removes every copy of the id and keeps the other ids, their order and their counts; bookmarking appends the id at the end without de-duplicating |
| BookmarkStore.ToggleMessage | src/components/EventCard.tsx:34 | the message says "Removed from bookmarks" exactly when the event was bookmarked before the click, and "Added to bookmarks" exactly when it was not |
| BookmarkStore.ToggleAgreesWithFlag | src/components/EventCard.tsx:27-32 | after a toggle, the id is in the list exactly when the new flag is set |
| BookmarkStore.ToggleKeepsOthers | src/components/EventCard.tsx:27-29 | whether another id is bookmarked does not change |
| BookmarkStore.RemoveAbsent | src/components/EventCard.tsx:28 | removing an id that is not stored leaves the list unchanged |
| BookmarkStore.ToggleTwiceRestores | src/components/EventCard.tsx:27-31 | adding an absent id and then removing it restores the exact list |
| FilterBar.IsSet | src/components/FilterBar.tsx:23 | a selection is truthy exactly when it highlights some badge with a non-empty name |
| FilterBar.HasActiveFilters | src/components/FilterBar.tsx:23 | the reset control shows exactly when some non-empty status or platform badge is highlighted |
| FilterBar.Toggle | src/components/FilterBar.tsx:38 | clicking a badge flips whether that badge is selected, and no other badge is left selected |
| FilterBar.ToggleTwice | src/components/FilterBar.tsx:55 | two clicks on the same badge clear the selection, unless that badge was already selected |
| FilterBar.BadgeLabel | src/components/FilterBar.tsx:40 | the caption has the status's length and keeps every character that is not a dash |
| FilterBar.BadgeLabelFirstDash | src/components/FilterBar.tsx:40 | only the first dash becomes a space; later dashes stay |
| FilterBar.BadgesAreStatusNames | src/components/FilterBar.tsx:20 | the status badges are exactly the four status names of the catalogue record, with none repeated |
| FilterBar.EntryCoveredByBadges | src/components/FilterBar.tsx:20-21 | each catalogue entry's status and platform have badges |
| FilterBar.CatalogueCoveredByBadges | src/components/FilterBar.tsx:20-21 | every catalogue entry's status and platform each have a badge |
| Home.MatchesSearch | src/pages/Index.tsx:30-33 | an empty query matches every event, and a query longer than the title, the description and every tag matches none |
| Home.Matches | src/pages/Index.tsx:30-38 | an event that passes all three tests matches the search; with no active selection, the search alone decides |
| Home.FilterEvents | src/pages/Index.tsx:29-39 | the listed events keep catalogue order; each one matches the search, the selected status and the selected platform; and every event that matches all three is listed, as many times as the catalogue holds it |
| Home.NoFiltersShowAll | src/pages/Index.tsx:30-36 | with an empty query and no selection, the whole catalogue is listed |
| Home.SearchIsSubstringSearch | src/pages/Index.tsx:30-33 | a non-empty query matches exactly when its lower-cased form occurs in the lower-cased title, in some lower-cased tag, or in the lower-cased description |
| Home.SearchIgnoresCase | src/pages/Index.tsx:31-33 | lower-casing the query does not change the result |
| Home.SelectionsOnlyNarrow | src/pages/Index.tsx:35-38 | adding a status or platform selection only removes events |
| Home.InactiveSelectionsIgnored | src/pages/Index.tsx:35-36 | selections that are null or empty strings filter nothing |
| Home.HomePage.constructor | src/pages/Index.tsx:13-15 | the page opens with an empty query, no selections, and the whole catalogue shown |
| Home.HomePage.Shown | src/pages/Index.tsx:29-39 | the shown events are a subsequence of the catalogue |
| Home.HomePage.OffersResetWhenEmpty | src/pages/Index.tsx:66-81 | the empty-results panel's reset button appears only when nothing is listed; an empty list without that button means the catalogue itself is empty |
| Home.HomePage.Search | src/pages/Index.tsx:44 | typing sets the query and keeps both selections |
| Home.HomePage.ClickStatus | src/pages/Index.tsx:48 | a status click applies the badge toggle and keeps the query and the platform |
| Home.HomePage.ClickPlatform | src/pages/Index.tsx:49 | a platform click applies the badge toggle and keeps the query and the status |
| Home.HomePage.ResetFilters | src/pages/Index.tsx:23-27 | the reset clears the query and both selections, hides the reset control, and shows the whole catalogue |
| EventCard.StatusColor | src/components/EventCard.tsx:37-45 | the four known statuses get `bg-` plus the status, and anything else gets `bg-muted` |
| EventCard.StatusColorsDistinct | src/components/EventCard.tsx:37-45 | the four statuses get four different colour classes, none of them the fallback |
| EventCard.StatusRibbon | src/components/EventCard.tsx:60 | the ribbon is the filter bar's caption upper-cased: it has the same length and no small letters |
| EventCard.Card.constructor | src/components/EventCard.tsx:15 | a new card starts as not bookmarked |
| EventCard.Card.Load | src/components/EventCard.tsx:17-20 | on mount, the flag says whether the stored list holds the event id |
| EventCard.Card.ToggleBookmark | src/components/EventCard.tsx:22-35 | the stored list becomes the toggled list and the flag flips, after which the flag agrees with the list; the message depends on the old flag |
| EventCard.ToggleTwice | src/components/EventCard.tsx:27-31 | starting unbookmarked with the id absent, two clicks restore the stored list |
| EventDetail.Find | src/pages/EventDetail.tsx:16 | the result is none exactly when no entry has the id; otherwise it is an entry with that id |
| EventDetail.FindIsFirst | src/pages/EventDetail.tsx:16 | lookup returns the first entry with the id |
| EventDetail.FindById | src/pages/EventDetail.tsx:16 | in a catalogue with distinct ids, each entry is found by its own id |
| EventDetail.IsRelated | src/pages/EventDetail.tsx:74-75 | an event is never related to itself |
| EventDetail.RelatedEvents | src/pages/EventDetail.tsx:72-77 | the list holds at most three events in catalogue order, never the current one, each sharing a tag or the source with it; the list is the first three related events, or all of them when there are fewer, and in that case each appears as often as in the catalogue |
| EventDetail.RelatedAreEarliest | src/pages/EventDetail.tsx:72-77 | a related event left out comes after every listed one |
| EventDetail.PrefixIsSubsequence | src/pages/EventDetail.tsx:77 | `slice(0, 3)` of an order-preserving selection is still one |
| EventDetail.AbsentStaysInFront | src/pages/EventDetail.tsx:77 | a prefix that does not contain a given element ends before that element's position |
| EventDetail.DetailPage.constructor | src/pages/EventDetail.tsx:14-17 | the page holds the lookup result for the id in the address, and the flag starts unset |
| EventDetail.DetailPage.Load | src/pages/EventDetail.tsx:19-23 | without an event the flag is untouched; otherwise it says whether the id is stored |
| EventDetail.DetailPage.ToggleBookmark | src/pages/EventDetail.tsx:40-49 | the same list rewrite, flag flip and message as the card's button |
| EventDetail.DetailPage.Related | src/pages/EventDetail.tsx:72-77 | the found event is not among its own related events, and at most three are listed |
| Bookmarks.BookmarkedEvents | src/pages/Bookmarks.tsx:17 | exactly the catalogue entries whose ids are stored, in catalogue order, each as many times as the catalogue holds it |
| Bookmarks.OnlyStoredIdsOfEventsMatter | src/pages/Bookmarks.tsx:17 | the order and repetition of the stored ids do not change the page |
| Bookmarks.UnknownIdsIgnored | src/pages/Bookmarks.tsx:17 | stored ids that name no catalogue entry add nothing |
| Bookmarks.NoDuplicateEvents | src/pages/Bookmarks.tsx:17 | an id stored twice still shows its event once |
| Bookmarks.NothingStoredShowsNothing | src/pages/Bookmarks.tsx:16 | with nothing stored, the page is empty |
| Bookmarks.ToggleShowsOnPage | src/pages/Bookmarks.tsx:17 | the list the page shows when it next loads contains an event toggled on and omits one toggled off |
| Bookmarks.BookmarksPage.constructor | src/pages/Bookmarks.tsx:12 | the page starts with no events listed |
| Bookmarks.ToggleOffOnPageKeepsCard | src/pages/Bookmarks.tsx:21-24 | un-bookmarking an event from its card on the bookmarks page leaves that card listed, although the stored list no longer holds its id |
| Bookmarks.BookmarksPage.LoadBookmarks | src/pages/Bookmarks.tsx:15-19 | reloading lists the catalogue entries of the stored ids |
| Analytics.Participants | src/pages/Analytics.tsx:44 | a missing or empty aggregate counts 0; otherwise the first aggregate's count is used, with 0 for a missing count |
| Analytics.TotalParticipantsAppend | src/pages/Analytics.tsx:43-46 | the sum over two batches of events is the sum of the two sums |
| Analytics.TotalParticipants | src/pages/Analytics.tsx:43-46 | every event's count is part of the total, and the total is 0 exactly when every count is |
| Analytics.CountStatus | src/pages/Analytics.tsx:51-52 | the count is at most the number of events, and it is 0 exactly when no event has that status |
| Analytics.CountStatusIsOccurrences | src/pages/Analytics.tsx:51-52 | `filter(...).length` is the number of events with that exact status |
| Analytics.ComputeStats | src/pages/Analytics.tsx:43-53 | there is one event per row; the upcoming and completed counts are the numbers of those statuses and never exceed the total; the participant total is the sum of the events' counts, so each event's count is at most the total |
| Analytics.NoEventsNoStats | src/pages/Analytics.tsx:13-18 | no events give the initial all-zero numbers |
| Analytics.AnalyticsPage.constructor | src/pages/Analytics.tsx:13-19 | the page starts with all-zero numbers, which describe its empty event list |
| Analytics.AnalyticsPage.FetchAnalytics | src/pages/Analytics.tsx:40-54 | a successful fetch stores the rows and their numbers; on an error or no data, nothing changes |
| ProfileSetup.TrimAll | src/pages/ProfileSetup.tsx:37 | `map(s => s.trim())` trims each piece in place |
| ProfileSetup.ParseSkills | src/pages/ProfileSetup.tsx:37 | every skill is non-empty, trimmed and comma-free, and skills keep their order. Every non-empty trimmed piece is kept, as often as it occurs. There is at most one more skill than there are commas. The list is empty exactly when the input holds only blanks and commas |
| ProfileSetup.NonEmptyPiecesKept | src/pages/ProfileSetup.tsx:37 | `filter(Boolean)` keeps every copy of each non-empty string |
| ProfileSetup.PiecesHaveNoComma | src/pages/ProfileSetup.tsx:37 | no trimmed piece holds a comma |
| ProfileSetup.NoSkillsIffBlank | src/pages/ProfileSetup.tsx:37 | nothing survives `filter(Boolean)` exactly when the input holds only white space and commas |
| ProfileSetup.NothingNonEmpty | src/pages/ProfileSetup.tsx:37 | `filter(Boolean)` on strings leaves nothing exactly when every string is empty |
| ProfileSetup.EmptyPiecesIffBlank | src/pages/ProfileSetup.tsx:37 | a trimmed piece is empty exactly when its untrimmed piece is all white space |
| ProfileSetup.BlankPieces | src/pages/ProfileSetup.tsx:37 | every piece is blank exactly when the input holds only white space and commas |
| ProfileSetup.ParseJoinedSkills | src/pages/ProfileSetup.tsx:37 | saved skills joined with commas parse back to the same list |
| ProfileSetup.ReparseIsIdentity | src/pages/ProfileSetup.tsx:37 | parsing the comma-joined result of a parse gives that result again |

## Left out

- Local storage and JSON are modelled as an in-memory `Option<seq<string>>`, so `BookmarkStore.Store` does not model `JSON.parse`/`JSON.stringify` or a stored value that is not a JSON list of strings. Several cards that share one `Store` stand in for several readers of one browser storage.
- The `storage` event listener on the bookmarks page is cross-tab event plumbing. `LoadBookmarks` is the handler it would re-run.
- A toggle made on the bookmarks page does not refresh that page in the same tab. The browser sends `storage` events only to other documents, so an un-bookmarked card stays listed until the page loads again, despite the "real-time" comment at src/pages/Bookmarks.tsx:23. `Bookmarks.ToggleOffOnPageKeepsCard` states this behaviour; the model keeps it rather than refreshing the page.
- `toLowerCase`, `toUpperCase`: Text.ToLower and Text.ToUpper map ASCII letters only, and other characters pass through unchanged. Full Unicode case mapping, including changes of length such as `ß` becoming `SS`, is not modelled.
- Strings are sequences of Unicode characters, not UTF-16 code units. This makes no difference to the ASCII-only operations modelled.
- Date formatting (`formatDate`, `toLocaleDateString`) is locale behaviour and is not modelled.
- The `lastRefreshed` timestamp and the refresh button on the home page read the clock and are not modelled.
- These browser effects are left out: toasts (only the message text, `BookmarkStore.ToggleMessage`, is kept), `navigator.share` and the clipboard, `window.open`, navigation, and the not-found screen's layout.
- The page classes take the catalogue as a constructor argument. The application always passes `Catalogue.Hackathons`, and the catalogue's own properties are proved about that constant.
- The detail page's `toggleBookmark` repeats the card's code. Both methods use the single `BookmarkStore.Toggled`.
- The detail page's bookmark button exists only when the event was found, which `ToggleBookmark`'s precondition expresses.
- Analytics: the backend query is a parameter: an error flag and the optional rows. A registration count is a `nat`, and a missing or zero count contributes 0, as `|| 0` does. Rows whose status is something other than the four catalogue statuses (such as `completed`) are plain strings.
- FilterBar.BadgeLabel: the CSS `capitalize` applied to the status badges is styling and is not modelled; the caption is the string before styling.
- FilterBar.HasActiveFilters: JavaScript truthiness is modelled. A selection counts as set only when it is present and not the empty string.
- The backend and authentication pages are not part of this model: sign-in, dashboard, event creation and management, and the profile save call around the skills expression.
