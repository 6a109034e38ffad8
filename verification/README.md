# Daily Bible Quote — a Dafny model of its quote logic

Daily Bible Quote is a small web app. Once a day it shows a Bible verse (or a general
quote) and keeps a bounded list of recent quotes. The reader can mark favorites, scroll an
endless feed and choose the quote source. A command-line helper switches ads on.

This project models the logic behind those features as pure Dafny functions over an
immutable key-value store. It then proves what the logic promises:

- **Quote service** (`QuoteService`, in `quote_service.dfy`):
  - today's quote, memoised under a date key `quote_<year>_<month>_<day>`;
  - the fallback quote used when fetching fails;
  - the random Bible reference, and the reflection text chosen for each book;
  - the fallback from the Bible endpoint to the general endpoint;
  - the recent-quotes list, which holds at most 50 quotes, newest first, with no repeated ids;
  - the stored source preference.
- **App state** (`App`): toggling favorites, toggling the theme, loading a batch of random
  quotes in sequence, and the fallback to the recent list when loading today's quote fails.
- **Feed** (`QuoteFeed`): the first quote, merging a batch without repeating ids already
  shown, the preload guard, the per-quote explanation flags and the explanation wording.
- **Settings** (`Settings`): how the notification time is formatted into and parsed out of
  the time input, the source shown on screen, and how a source change clears today's memo.
- **AdSense helper** (`ConfigureAdsense`): the publisher-id pattern `/^ca-pub-\d{16}$/`,
  the two first-occurrence rewrites of the banner's source text, and the script's early
  exits.

Shared pieces:

- `Quotes`: the quote record and the id-based list operations.
- `Storage`: stored values and JavaScript truthiness.
- `Text`: ECMAScript white space, `trim`, `split`, and `replace` with a string pattern or a
  one-character global pattern.
- `Decimal`: `Number#toString` and the global `parseInt`, with leading white space, sign
  and `0x` prefix.
- `Optional`: the option type.

Everything the code reads from outside is a parameter:

- the store;
- the calendar date;
- the random draws (as indices already drawn);
- the value of `Date.now()`;
- the outcome of each HTTP request;
- the file read and write in the helper.

Operations that fetch return the list of requests they made. That makes it possible to
state that a memo hit makes no request.

Two behaviours of the code are easy to miss:

- **Empty verse text.** The code tests `!data.text` before trimming
  (src/services/quoteService.js:130-137). So a verse text made only of white space is
  accepted, and the quote's content is then `""`. `QuoteService.BibleQuote` states
  `content == Trim(text)` and no more.
- **Settings source.** `loadSettings` reads the saved source inside the same `try` as the
  permission check (src/components/Settings.jsx:17-35). If that check threw, the screen
  would show `'bible'` even if another source were saved and used
  (`Settings.SettingsSourceCanDisagree`). The browser build's check returns `false`
  without throwing (src/services/notificationService.js:19-21), so in this build the
  screen always shows the saved source (`Settings.SettingsSourceAgrees`).

## Model

| member | source | states |
|---|---|---|
| `QuoteService.BibleReferenceRoundTrip` | src/services/quoteService.js:81-111 | The generated `Book+chapter:verse` reference reads back as the chosen book, a chapter in 1..chapters and a verse in 1..20 |
| `QuoteService.MeaningKeysShape` | src/services/quoteService.js:8-26 | The reflection table has distinct keys, and it lists exactly the books references are drawn from, in the same order |
| `QuoteService.BibleReference` | src/services/quoteService.js:81-111 | The reference built from a pick reads back as a reference whose book is the picked book |
| `QuoteService.ReferenceRoundTrip` | src/services/quoteService.js:110 | Any letters-only name with any chapter and verse numbers, joined as `name+chapter:verse`, reads back as exactly those three parts |
| `QuoteService.MeaningKeysCapitalised` | src/services/quoteService.js:8-26 | Every key of the reflection table is a word starting with an upper-case letter |
| `QuoteService.InheritedMembersAreNotKeys` | src/services/quoteService.js:159 | No letters-only member name inherited from `Object.prototype` is an own key of the table |
| `QuoteService.MeaningTextNonEmpty` | src/services/quoteService.js:8-26 | Every text stored in the reflection table is non-empty |
| `QuoteService.OwnMeaning` | src/services/quoteService.js:159 | The own-entry lookup finds a text exactly when the name is a key of the table, and then the text stored under it |
| `QuoteService.WordStart` | src/services/quoteService.js:156 | The scan skips one leading digit if there is one, then only white space, and stops at the first character that is not white space |
| `QuoteService.BookNameOf` | src/services/quoteService.js:156 | The regex matches exactly when an ASCII letter stands where the optional digit and the white space after it end; the captured name then starts there, is a non-empty run of ASCII letters and is followed by a non-letter or the end |
| `QuoteService.BookNameOfBuilt` | src/services/quoteService.js:154-158 | An optional digit, white space, a word and a non-letter tail capture exactly that word |
| `QuoteService.BookNameOfNoWord` | src/services/quoteService.js:156-161 | A reference with no ASCII letter does not match |
| `QuoteService.MeaningForVerse` | src/services/quoteService.js:153-162 | The meaning is the book's own text when the captured name is in the table, otherwise the generic reflection |
| `QuoteService.MeaningForVerseNonEmpty` | src/services/quoteService.js:153-162 | Every reference gets a non-empty meaning |
| `QuoteService.MeaningOfListedName` | src/services/quoteService.js:156-159 | A reference whose captured name is the i-th key of the table gets exactly the i-th text |
| `QuoteService.MeaningOfNumberedBook` | src/services/quoteService.js:154-159 | "2 Peter 1:3" gets Peter's text |
| `QuoteService.MeaningOfUnlistedBook` | src/services/quoteService.js:159 | A book missing from the table ("Habakkuk 2:4") gets the generic reflection |
| `QuoteService.SpacedReferenceName` | src/services/quoteService.js:132-158 | For a letters-only word `Name`, the text `Name+tail` with every `+` turned into a space captures exactly `Name` as the book name |
| `QuoteService.GeneratedBookName` | src/services/quoteService.js:110-158 | A generated reference, with `+` turned into a space, captures the name of the book it was generated from |
| `QuoteService.MeaningOfGeneratedReference` | src/services/quoteService.js:110-133 | A reference the service generated itself, with `+` turned into a space, always gets its book's own text |
| `QuoteService.MeaningAsWritten` | src/services/quoteService.js:159 | The lookup as written returns a function object only for a name inherited from `Object.prototype` |
| `QuoteService.MeaningAsWrittenReturnsFunction` | src/services/quoteService.js:156-159 | "constructor 1:1" makes the lookup as written return a function instead of a text |
| `QuoteService.MeaningAsWrittenAgrees` | src/services/quoteService.js:156-161 | For every other reference, the lookup as written and the corrected lookup agree |
| `QuoteService.FetchGeneral` | src/services/quoteService.js:70-79 | One request to `/random`; a quote exactly when the endpoint answered, and then the payload as-is |
| `QuoteService.BibleQuote` | src/services/quoteService.js:132-142 | Id `bible_` then the clock, tags `bible` and `scripture`, source `bible`, trimmed content, the answered reference or the spaced request reference as author, and the meaning for that author |
| `QuoteService.FetchBible` | src/services/quoteService.js:113-151 | The verse is requested first; a failed request or empty `text` yields the general endpoint's outcome after a second request; otherwise one request and the formatted verse |
| `QuoteService.QuoteSource` | src/services/quoteService.js:220-222 | The preference is the stored value when it is truthy, `'bible'` otherwise, and is always truthy |
| `QuoteService.SetQuoteSource` | src/services/quoteService.js:216-218 | The preference key holds the new string and every other key is kept |
| `QuoteService.SourceRoundTrip` | src/services/quoteService.js:216-222 | A written preference reads back as itself, except `''`, which reads back as `'bible'` |
| `QuoteService.FetchForSource` | src/services/quoteService.js:42-45 | Under the string `'bible'` the result is the Bible fetch, under any other preference the general fetch; the first request goes to the Bible endpoint exactly in the first case |
| `QuoteService.AddToCachedQuotes` | src/services/quoteService.js:203-214 | A new id goes to the head and the list keeps at most 50 entries, with the rest an in-order prefix of the old list; a known id or an unreadable list changes nothing; no other key is touched |
| `QuoteService.AddKeepsBound` | src/services/quoteService.js:208 | A list of at most 50 quotes stays at most 50 |
| `QuoteService.AddKeepsDistinct` | src/services/quoteService.js:206-207 | Distinct ids in the list stay distinct |
| `QuoteService.AddIdempotent` | src/services/quoteService.js:206 | Remembering a quote twice is remembering it once |
| `QuoteService.TodayKey` | src/services/quoteService.js:198-201 | A date key starts with `quote_` and is at least eleven characters, one digit at least per number |
| `QuoteService.TodayKeyParts` | src/services/quoteService.js:198-201 | The date key splits on `_` into `quote` and the unpadded year, zero-based month and day |
| `QuoteService.TodayKeyInjective` | src/services/quoteService.js:198-201 | Different dates have different keys |
| `QuoteService.TodayKeyIsNotFixed` | src/services/quoteService.js:198-222 | A date key never collides with `cachedQuotes`, `quoteSource`, `favorites` or `theme` |
| `QuoteService.FallbackQuote` | src/services/quoteService.js:59-68 | The fallback's content, author, tags and source are fixed, it has no meaning, and its id is `fallback_` followed by the clock |
| `QuoteService.DailyQuote` | src/services/quoteService.js:29-57 | A truthy memo is returned with no request and no store change; on a miss the preferred source is fetched, and the quote is memoised under the date key and remembered in the recent list; a failed fetch gives the fallback quote and leaves the store alone; the result is always truthy |
| `QuoteService.DailyRemembers` | src/services/quoteService.js:48-49 | A fetched daily quote is in the recent list afterwards whenever that list is readable |
| `QuoteService.DailyMemo` | src/services/quoteService.js:32-48 | Once a call has memoised a quote, later calls that day return the same value with no request |
| `QuoteService.DailyBibleVerse` | src/services/quoteService.js:29-50 | Under `'bible'`, a day without a memo whose verse request answers with text gets the formatted verse as its quote and memo, after exactly one request |
| `QuoteService.DailyGeneralQuote` | src/services/quoteService.js:29-50 | Under any other preference, a day without a memo whose general request answers gets the payload as its quote and memo, after exactly one request |
| `QuoteService.DailyFallsBack` | src/services/quoteService.js:52-56 | When both endpoints fail, the day's quote is the fallback |
| `QuoteService.RandomQuote` | src/services/quoteService.js:164-169 | The preferred source is fetched even when a memo exists; a quote is remembered and a failure leaves the store as it was; the preference is unchanged |
| `QuoteService.EmptyBibleTextFallsBackToGeneral` | src/services/quoteService.js:130-150 | An empty Bible answer yields the general quote instead of an error |
| `App.IsQuoteFavorited` | src/App.jsx:93-95 | Favorited exactly when some favorite has the quote's id |
| `App.ToggleFavorite` | src/App.jsx:69-81 | Toggling flips favorited status: a favorited quote has every entry with its id removed and nothing else, an unfavorited one is appended; the new list is persisted and nothing else changes |
| `App.ToggleFavoriteTwiceRestores` | src/App.jsx:69-81 | Adding and then removing a quote restores the favorites list |
| `App.ToggleFavoriteTwiceMovesToEnd` | src/App.jsx:73-77 | Removing and then re-adding a favorite moves it to the end |
| `App.ToggleFavoriteKeepsDistinct` | src/App.jsx:69-81 | Favorites with distinct ids keep distinct ids |
| `App.NextTheme` | src/App.jsx:84 | `light` becomes `dark`, and every other theme, unknown ones included, becomes `light` |
| `App.HandleThemeToggle` | src/App.jsx:83-87 | The new theme is persisted under `theme`; favorites and the shown quote are unchanged |
| `App.ThemeToggleTwice` | src/App.jsx:83-87 | Two toggles restore a light or dark theme |
| `App.Successes` | src/App.jsx:99-106 | A batch never returns more quotes than attempts |
| `App.FetchDependsOnSource` | src/services/quoteService.js:165-166 | A fetch depends on the store only through the preference |
| `App.LoadStep` | src/App.jsx:99-106 | One more call of the batch loop adds its quote, when there is one, to the quotes so far, remembers it on top of the store so far and keeps the preference |
| `App.LoadMoreQuotes` | src/App.jsx:97-108 | `count` calls in sequence: the quotes of the calls that did not throw are returned in order; each one is remembered in turn; the preference is unchanged |
| `App.LoadTodaysQuote` | src/App.jsx:52-67 | The daily value is shown and the store becomes the one the daily lookup left; only if the lookup threw is the stored list read: the head of a non-empty list, the first character of a string, nothing for an empty list, an object or a falsy value; favorites and theme never change |
| `App.TodaysQuoteIsDaily` | src/App.jsx:55-56 | Since the daily lookup never throws, the shown quote is the daily one, the store is the one it left, and a fetched quote is memoised under the date key |
| `QuoteFeed.InitialFeed` | src/components/QuoteFeed.jsx:5 | The feed starts with the parent's quote, or empty without one |
| `QuoteFeed.FillEmpty` | src/components/QuoteFeed.jsx:12-16 | An empty feed receives the parent's quote; a non-empty feed, or no quote, leaves the feed as it is |
| `QuoteFeed.NotShown` | src/components/QuoteFeed.jsx:41-43 | The batch is filtered to the quotes whose id is not yet shown |
| `QuoteFeed.NotShownAppend` | src/components/QuoteFeed.jsx:41-43 | Filtering two batches joined is joining the two filtered batches, so the appended quotes keep the batch order |
| `QuoteFeed.MergeLoaded` | src/components/QuoteFeed.jsx:40-45 | The shown quotes stay in front unchanged; the appended ones are exactly the batch's quotes whose id is not shown |
| `QuoteFeed.MergeLoadedAppend` | src/components/QuoteFeed.jsx:40-45 | Merging a batch `a + b` is merging `a` and then appending the new quotes of `b`, judged against the feed before the merge |
| `QuoteFeed.MergeLoadedOne` | src/components/QuoteFeed.jsx:40-45 | A one-quote batch is dropped when its id is shown and appended otherwise |
| `QuoteFeed.MergeShownIsNoOp` | src/components/QuoteFeed.jsx:69-74 | A batch of already-shown quotes leaves the feed as it was |
| `QuoteFeed.MergeKeepsRepeatsInBatch` | src/components/QuoteFeed.jsx:41-44 | Two copies of a new quote in one batch are both appended |
| `QuoteFeed.MergeDistinct` | src/components/QuoteFeed.jsx:69-74 | Distinct ids in the feed and in the batch give distinct ids after the merge |
| `QuoteFeed.PrependInitial` | src/components/QuoteFeed.jsx:19-30 | The parent's quote is always in the feed afterwards: the feed is unchanged when its id is shown, otherwise the quote is put in front |
| `QuoteFeed.PrependInitialIdempotent` | src/components/QuoteFeed.jsx:21-28 | Passing the same quote again changes nothing |
| `QuoteFeed.FillEmptyThenPrepend` | src/components/QuoteFeed.jsx:12-30 | The mount effect followed by the update effect gives what the update effect alone gives |
| `QuoteFeed.Preload` | src/components/QuoteFeed.jsx:34-45 | With five or more quotes, no loader or a load in flight, the feed is unchanged; otherwise four quotes are asked for and merged into the feed, which stays in front |
| `QuoteFeed.PreloadDistinct` | src/components/QuoteFeed.jsx:34-45 | A preload keeps the feed's ids distinct when the loaded batch has distinct ids |
| `QuoteFeed.ToggleExplanation` | src/components/QuoteFeed.jsx:91-96 | The quote's flag is negated, with a missing flag read as closed; every other flag is kept |
| `QuoteFeed.ToggleExplanationTwice` | src/components/QuoteFeed.jsx:91-96 | Two toggles restore whether the explanation is open |
| `QuoteFeed.WordingsDiffer` | src/components/QuoteFeed.jsx:100-103 | The Bible and general wordings never coincide, whatever the authors |
| `QuoteFeed.GetExplanation` | src/components/QuoteFeed.jsx:98-104 | The explanation opens with the Bible wording's opening for a Bible quote and the general one otherwise, then names the author |
| `QuoteFeed.GetExplanationWording` | src/components/QuoteFeed.jsx:98-104 | The Bible wording is given exactly when the source is `bible` or a tag is `bible`, the general wording exactly otherwise |
| `Settings.PadStart2` | src/components/Settings.jsx:70-71 | Padding gives at least two characters, keeps the text whole at the end and adds only zeros |
| `Settings.NumberText` | src/components/Settings.jsx:70-71 | A field's text is the integer's `toString`, or `NaN` for a `NaN` field; it is non-empty and has no colon |
| `Settings.FormatTime` | src/components/Settings.jsx:69-73 | The shown time is two colon-free fields around one colon, at least five characters |
| `Settings.FormatTimeOfDigits` | src/components/Settings.jsx:69-73 | Single-digit hours and minutes format as five characters `0h:0m` |
| `Settings.TwoDigitField` | src/components/Settings.jsx:70-71 | A number from 0 to 99 pads to exactly two digits that read back as the number |
| `Settings.FormatTimeOfTwoDigits` | src/components/Settings.jsx:69-73 | Hours and minutes from 0 to 99 show as five characters `hh:mm`, each digit pair reading back as its field |
| `Settings.FormatTimeOfNaN` | src/components/Settings.jsx:69-73 | A time whose two fields are `NaN` shows as `NaN:NaN` |
| `Settings.ParseTimeInput` | src/components/Settings.jsx:63-64 | A field is read as a number only if the input has a digit |
| `Settings.ParseTimeInputWithoutColon` | src/components/Settings.jsx:113-115 | Without a colon the minute is `NaN` and the hour is read from the whole value |
| `Settings.TimeRoundTrip` | src/components/Settings.jsx:63-115 | Formatting any time, integer or `NaN` in either field, and parsing the input's value gives the time back |
| `Settings.NaNRoundTrip` | src/components/Settings.jsx:64-71 | A `NaN` field formats as `NaN`, which `parseInt` reads back as `NaN` |
| `Settings.SettingsSource` | src/components/Settings.jsx:10-35 | The shown source is `'bible'` unless a truthy value is saved and the permission check did not throw |
| `Settings.SettingsSourceAgrees` | src/components/Settings.jsx:27-30 | Without a failing permission check, the screen shows the source the service uses |
| `Settings.SettingsSourceCanDisagree` | src/components/Settings.jsx:17-35 | When the permission check throws, the screen can show `'bible'` while another source is in use |
| `Settings.SourceChange` | src/components/Settings.jsx:53-61 | The new source is shown and stored, the date key is removed, every other key is kept, and no key is added besides the preference |
| `Settings.SourceChangeReadsBack` | src/components/Settings.jsx:55-56 | After a change the service reads the new source back, or `'bible'` for `''` |
| `Settings.SourceChangeRefetches` | src/components/Settings.jsx:58-60 | The next daily lookup that day makes requests, the first to the Bible endpoint exactly when the new source is `'bible'` or `''` |
| `ConfigureAdsense.MatchDigitsSpec` | configure-adsense.js:50 | `\d{n}` consumes exactly the first n characters when they are all ASCII digits, and fails otherwise |
| `ConfigureAdsense.ValidatePublisherIdShape` | configure-adsense.js:49-52 | An id is valid exactly when it is 23 characters: `ca-pub-` and sixteen digits |
| `ConfigureAdsense.ValidExample` | configure-adsense.js:58-68 | The prompt's example id is valid |
| `ConfigureAdsense.ValidRejectsExtra` | configure-adsense.js:50 | A character after the sixteen digits makes an id invalid |
| `ConfigureAdsense.ValidIdCharacters` | configure-adsense.js:30-50 | A valid id has no `$` and no `e`; it starts with `c` and ends with a digit |
| `ConfigureAdsense.UpdateAdBannerConfig` | configure-adsense.js:25-47 | The update fails exactly when the read or the write throws |
| `ConfigureAdsense.UpdateWithoutMarkers` | configure-adsense.js:30-39 | Text with neither the placeholder nor the disabled marker is written back unchanged |
| `ConfigureAdsense.UpdatePutsIdInPlace` | configure-adsense.js:30-39 | With no disabled marker, a valid id replaces the placeholder's first occurrence and nothing else; the result has no disabled marker either |
| `ConfigureAdsense.UpdateEnablesFirstMarker` | configure-adsense.js:36-39 | Without the placeholder, only the first `enabled: false` becomes `enabled: true` |
| `ConfigureAdsense.RunScript` | configure-adsense.js:54-92 | An empty line exits first; an invalid id exits before any file access; the banner is configured only for a valid id, and always when the read and the write succeed |
| `ConfigureAdsense.EmptyIsInvalid` | configure-adsense.js:60-66 | The empty line is not a valid id, so the first exit never hides a valid one |
| `Text.Trim` | src/services/quoteService.js:137 | The trimmed text is a slice of the input, everything dropped before and after it is white space, and it has no white space at either end; it is empty exactly when the input is all white space |
| `Text.TrimIdempotent` | src/services/quoteService.js:137 | Trimming twice is trimming once |
| `Text.ReplaceAllChar` | src/services/quoteService.js:132 | The `+`-to-space rewrite keeps the length and changes exactly the `+` characters |
| `Text.ReplaceFirst` | configure-adsense.js:30-39 | Only the first occurrence is replaced, and text without an occurrence is unchanged |
| `Text.Split` | src/components/Settings.jsx:114 | `split` gives at least one piece; no piece holds the separator, and every character of a piece comes from the input |
| `Text.SplitAt` | src/components/Settings.jsx:114 | Splitting reads the piece up to the first separator, then the rest |
| `Decimal.NatToString` | src/components/Settings.jsx:70-71 | A number's decimal text is non-empty, all digits, without a leading zero, and has the number's value |
| `Decimal.IntToString` | src/components/Settings.jsx:70-71 | An integer's text is non-empty, starts with `-` exactly when the integer is negative, and is otherwise all ASCII digits |
| `Decimal.ParseInt` | src/components/Settings.jsx:64 | `parseInt` gives a number only for text that has a digit |
| `Decimal.ParseIntOfToString` | src/components/Settings.jsx:64 | `parseInt` reads every integer's `toString` back |
| `Decimal.ParseIntOfPadded` | src/components/Settings.jsx:64-71 | `parseInt` reads a zero-padded single field back |
| `Decimal.IntToStringInjective` | src/services/quoteService.js:200 | Different integers have different text |
| `Quotes.SomeId` | src/services/quoteService.js:206 | `some(q => q._id === id)` holds exactly when some element has the id |
| `Quotes.FilterOutId` | src/App.jsx:74 | Filtering drops exactly the quotes with the id and keeps every other one |
| `Quotes.FilterOutIdAppend` | src/App.jsx:74 | Filtering works piece by piece, so kept quotes keep their order |

## Left out

- Rendering, CSS, the loading spinners and view switching: they are UI.
- The HTTP layer and JSON decoding are replaced by outcome parameters. A general-endpoint
  payload is taken as a quote record as it is.
- `Date.now()`, `new Date()` and `Math.random()` are parameters. Each call sees one clock
  value and one date. The three separate `new Date()` calls in `handleQuoteSourceChange`
  could straddle midnight; the model uses one date for all three.
- `shareQuote`, `getQuotesByTag`, notifications (permission, scheduling, the stored
  notification time), `initializeApp` restoring the theme and favorites, the ad banner and
  `adSenseService`: they are I/O or browser APIs.
- The infinite-scroll trigger's geometry (`scrollHeight - scrollTop - clientHeight < 200`).
  Only the merge it performs is modelled, as `QuoteFeed.MergeLoaded`.
- Concurrent `loadMoreQuotes` / `getRandomQuote` calls interleaving over the shared store:
  the model runs them one after another.
- Storage write failures and `storageService` serialisation: the store is a plain map.
- The readline prompt and process I/O of the AdSense helper. The file read and write are
  an optional text and a failure flag.
- `Text.ReplaceFirst`: does not expand the `$` patterns JavaScript interprets in a
  replacement string. A valid publisher id has no `$` (`ConfigureAdsense.ValidIdCharacters`)
  and the other replacement is a constant, so no replacement in the helper has one.
- `Decimal.ParseInt`: reads integers only. There is no fraction, exponent or `-0`, and
  precision is unbounded. The inputs come from a time field and from integers the app
  formats itself.
- `QuoteService.BibleQuote`: uses the corrected own-entry lookup `MeaningForVerse`, not
  the lookup as written (src/services/quoteService.js:133,159). The two differ only for a
  book word inherited from `Object.prototype`. A reference the service builds never has
  one (`QuoteService.MeaningOfGeneratedReference`); a reference the endpoint answers with
  could. The model follows the evident intent, and the difference is the row under
  "## Findings".
- `Settings.FormatTime`: a field is an integer or `NaN` (`None`), which shows as
  `NaN:NaN` (`Settings.FormatTimeOfNaN`). A saved time with other values, such as
  fractions, strings or a missing field, is not modelled.
- `Decimal.NatToString`: `Number#toString` writes numbers from 1e21 up in exponent form,
  which the model does not. So `Settings.TimeRoundTrip` holds of JavaScript numbers only
  below 1e21; the time picker's fields are far below that.
- `App.LoadMoreQuotes`: `count` is a required parameter. The default of 3 (src/App.jsx:97)
  is left out, because both callers in the feed pass the count themselves (4 and 3).
- `QuoteFeed.ToggleExplanation`: the flags are a plain map. A quote id equal to an
  `Object.prototype` member name would read an inherited function. Quote ids are
  `bible_`/`fallback_` stamps or ids from the quote endpoint.
- `QuoteFeed.Preload`: the `loading` flag's on/off sequence and a loader that throws are
  left out. The load-in-flight ref is the `inFlight` parameter, and the loader is a
  function from the count asked for to the batch.
- `App.LoadTodaysQuote`: the `loading` flag is left out. A stored string's `[0]` is modelled
  as its first character, and a stored object has no `length`.

## Findings

| source | as written | input that shows it | evidently intended | confidence | as-written member | corrected member |
|---|---|---|---|---|---|---|
| src/services/quoteService.js:156-159 | `BOOK_MEANINGS[bookName]` reads the plain object's inherited `Object.prototype` members as well as its own keys | the reference `"constructor 1:1"` (the book word is `constructor`): the lookup yields the `Object` constructor function, which is truthy, so a function is returned as the meaning | look up only the table's own entries and use the generic reflection for every other name | not executed | `QuoteService.MeaningAsWritten` (`QuoteService.MeaningAsWrittenReturnsFunction`) | `QuoteService.MeaningForVerse` |
