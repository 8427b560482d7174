# Where Is Match: a verified model of the client logic and the page generator

Where Is Match is a static web site that lists televised sports fixtures. It has two parts that contain real logic:

- A browser script (`app.js`, with `api-client.js` and `date-utils.js`).
  - It keeps multi-select filters for countries, competitions and broadcasters, plus checkbox pills for sports.
  - It persists those selections in `localStorage`.
  - It builds query strings for the remote API and moves the shown date one day at a time.
- A build script (`scripts/generate-seo-pages.mjs`).
  - It fetches the sports and countries and writes one landing page per sport.
  - It writes four "football in country X" pages.
  - It fills the footer links into the static pages and writes `sitemap.xml`.

This project models those rules in Dafny and proves what they promise. Each file is one module:

| file | module | models |
|---|---|---|
| `wrappers.dfy` | `Wrappers` | `Option` (JavaScript `null`/`undefined`) and `Result` (an `Error` thrown with a message) |
| `js_values.dfy` | `JsValues` | numbers as `Number.isFinite` sees them; values `JSON.parse` returns |
| `js_text.dfy` | `JsText` | the string and array built-ins the code relies on: `toLowerCase`, `trim`, `indexOf`/`includes`, `padStart`, `split`/`join`, `filter`, `findIndex`, `flatMap` |
| `form_urlencoded.dfy` | `FormUrlEncoded` | the `application/x-www-form-urlencoded` serializer and parser of the WHATWG URL Standard (section 5), over UTF-8 |
| `query_params.dfy` | `QueryParams` | `buildParams`: `URLSearchParams` with `append` for arrays and `set` for present scalars |
| `api_client.dfy` | `ApiClient` | `createApiClient` and app.js's `fetchJson`, up to the call of `fetch`, plus the `res.ok` check |
| `stored_ids.dfy` | `StoredIds` | `readStoredIds`, `writeStoredIds` and the initial state of the sport pills |
| `multi_filter.dfy` | `MultiFilter` | `createMultiFilter`, as a class with `items`, `selected` and an `onChange` counter as fields |
| `civil_date.dfy` | `CivilDate` | proleptic Gregorian dates, `setDate` carries, `todayIso`, `toISOString`, and the date-only forms `new Date(value + "T00:00:00")` accepts |
| `app_requests.dfy` | `AppRequests` | the parameter objects of `loadCompetitions` and `loadMatches`; the page's `currentDate` and `shiftDay` |
| `seo_text.dfy` | `SeoText` | `slugify`, `escapeHtml`, `buildSitemap` and the replacement of `injectSeoPages` |
| `seo_generator.dfy` | `SeoGenerator` | the `API_URL` check and the `fetchJson` URL of the generator; the two loops of `main`, `pickFootballSport` and `findCountryByName`; the sitemap's address set |

Main modelling decisions:

- **The selection is an insertion-ordered set.** A JavaScript `Set` iterates in insertion order, so the selection is a duplicate-free `seq<int>`. `add` appends a new id. `delete` removes one. Deleting an id and adding it again moves it to the end.
- **Loops and state updates are methods.** Code that loops, pushes or updates state is a method proved against a function. This covers `setItems`, `buildParams`, the parameter objects, `shiftDay` and the two loops of the generator's `main`. The function is then the subject of the lemmas.
- **The query string is checked in both directions.** It is modelled byte for byte and proved to parse back to exactly the intended name/value list. This shows that the serialization loses nothing and is injective.
- **Dates are civil dates with today as a parameter.** The clock is never read: "today" is always passed in. Local time is taken to be UTC, so local midnight and the ISO date agree.
  - Parsing follows the date-only forms of the ECMAScript date-time string format. These are `YYYY`, `YYYY-MM` and `YYYY-MM-DD`, plus the six-digit signed years.
  - A text the parser rejects, or a date outside the ±8.64e15 ms range of `Date`, makes `toISOString` throw. That case is modelled as an `Err`.
- **Two `todayIso` functions.** `todayIso` in `app.js` (line 59) is `toISOString().split("T")[0]`. The function of the same name in `date-utils.js` formats the local date fields, with an unpadded year. Both are modelled (`AppRequests.AppTodayIso` and `CivilDate.FormatLocal`). `CivilDate.FormatLocalIsIso` shows they agree for four-digit years.

## Model

| member | source | states |
|---|---|---|
| JsText.Lower | scripts/generate-seo-pages.mjs:19 | `toLowerCase` keeps the length and lower-cases each character in place (ASCII letters) |
| JsText.Trim | app.js:204 | `trim` gives an infix of the text that neither starts nor ends with JavaScript whitespace, and removes only whitespace around it |
| JsText.TrimOfBlank | app.js:204 | a text made only of whitespace trims to the empty text |
| JsText.TrimStart | app.js:204 | what the leading trim removes is all whitespace, and what is left starts with a non-whitespace character |
| JsText.TrimEnd | app.js:204 | what the trailing trim removes is all whitespace, and what is left ends with a non-whitespace character |
| JsText.IndexOf | scripts/generate-seo-pages.mjs:239 | `indexOf` finds the first occurrence, or reports that there is none at any position |
| JsText.IncludesIffOccurs | app.js:208 | `includes` holds exactly when the text occurs at some position |
| JsText.PadStart | date-utils.js:4-5 | `padStart` gives at least `len` characters, ends with `s` unchanged, and is filled with the pad character in front |
| JsText.NatToStringValue | date-utils.js:4-5 | `String(n)` reads back as `n` |
| JsText.NatToStringInjective | date-utils.js:4-5 | different numbers give different numerals |
| JsText.SplitJoin | scripts/generate-seo-pages.mjs:244-247 | splitting a newline-joined list of lines without newlines gives the lines back |
| JsText.SplitAtSeparator | date-utils.js:27 | `split("T")[0]` of a text whose first `T` follows a `T`-free prefix is that prefix |
| JsText.Filter | app.js:184-185 | `filter` keeps exactly the elements that pass the test |
| JsText.FilterMembers | app.js:184-185 | an element is in the filtered array exactly when it is in the array and passes the test |
| JsText.FilterIsSubsequence | app.js:207-209 | a filter keeps the relative order of what it keeps |
| JsText.FindIndex | scripts/generate-seo-pages.mjs:322-324 | `find`/`findIndex` gives the first index that passes the test, or none when no element does |
| JsText.FlatMapMembers | scripts/generate-seo-pages.mjs:272-301 | a loop that pushes zero or more items per element pushes exactly the items some element yields |
| JsText.FlatMapOfSingletons | scripts/generate-seo-pages.mjs:272-301 | a loop that pushes one item per passing element pushes, as its `k`-th item, the item of the `k`-th passing element |
| FormUrlEncoded.Utf8RoundTrip | api-client.js:12 | UTF-8 encoding of a string decodes back to the same string |
| FormUrlEncoded.EncodeHasNoDelimiters | api-client.js:12 | an encoded name or value contains no `&` and no `=` |
| FormUrlEncoded.EncodeRoundTrip | api-client.js:12 | decoding the form-urlencoding of a name or value gives it back |
| FormUrlEncoded.EncodeInjective | api-client.js:12 | different names or values encode differently |
| FormUrlEncoded.SerializeRoundTrip | api-client.js:12 | parsing the serialized list of pairs gives exactly that list, in order |
| FormUrlEncoded.SerializeEmptyIff | api-client.js:12 | the serialization is empty exactly when there are no pairs |
| FormUrlEncoded.SerializeInjective | api-client.js:12 | different lists of pairs serialize to different query strings |
| QueryParams.BuildParams | api-client.js:1-13 | the `forEach` loop leaves the `URLSearchParams` list whose serialization is returned; for an object, that list is its entries' contributions in key order |
| QueryParams.ArrayValuePairs | api-client.js:4-6 | an array value gives one pair per element, key repeated, values `String(item)` in element order |
| QueryParams.ScalarValuePairs | api-client.js:8-10 | a scalar gives no pair exactly when it is `undefined`, `null` or `""`, and otherwise exactly one pair `(key, String(value))` |
| QueryParams.EmptyArrayLikeAbsent | api-client.js:4-6 | an empty-array value gives the same query string as an absent key |
| QueryParams.EmptyQueryIff | api-client.js:12 | the query string is `""` exactly when no entry contributes a pair |
| QueryParams.ContributionsConcat | api-client.js:3 | pairs come in the order of the object's keys |
| QueryParams.UniqueKeysSetIsAppend | api-client.js:8-10 | because an object's keys are distinct, each `set` only appends, so the list is the entries' contributions in key order |
| QueryParams.QueryString | api-client.js:1-13 | `buildParams` gives a query string that parses back into exactly the entries' contributions (`QueryStringParses`), and that is empty exactly when nothing contributes (`EmptyQueryIff`) |
| QueryParams.QueryStringParses | api-client.js:1-13 | a server parses the query string back into exactly the entries' contributions, in key order |
| ApiClient.StripTrailingSlash | api-client.js:16 | `replace(/\/$/, "")` removes at most one final `/` and leaves the rest intact; it changes the text exactly when it ends in `/` |
| ApiClient.RequestUrl | api-client.js:24-25 | the URL is `base + path`, followed by `"?" + query` exactly when the query is not empty |
| ApiClient.RequestUrlReadsBack | api-client.js:24-25 | a server reads the URL as the endpoint plus exactly the parameters' pairs |
| ApiClient.CreateApiClient | api-client.js:15-17 | the client keeps the URL without one final `/` and the key, with `''` for absent values; `ClientRequest` and `SlashOnlyUrlIsMissing` state what it then requests or refuses |
| ApiClient.ClientRequest | api-client.js:19-31 | the client refuses, with "Missing API URL or API KEY.", exactly when the normalised URL or key is empty; otherwise it requests that URL with the JSON and `x-api-key` headers |
| ApiClient.SlashOnlyUrlIsMissing | api-client.js:16-22 | a configured URL of just `/` normalises to nothing, so every request is refused |
| ApiClient.ReadResponse | api-client.js:33-37 | the body is returned exactly for a 2xx status; any other status fails with "Request failed (status)" |
| ApiClient.AppRequest | app.js:113-126 | app.js refuses exactly when the URL is empty; the key header is sent exactly when a key is configured |
| ApiClient.ReadConfig | app.js:1-3 | app.js normalises its configuration as the client does, which `ClientAndAppAgree` turns into identical requests |
| ApiClient.ClientAndAppAgree | app.js:2-3 | whenever the client issues a request, app.js issues the same request from the same configuration |
| StoredIds.ReadStoredIds | app.js:39-49 | `readStoredIds` falls back to `[]` (`ReadStoredIdsFallsBack`), keeps the finite numbers in order (`FiniteNumbersKeepsOrder`) and returns what `writeStoredIds` stored (`WriteThenRead`) |
| StoredIds.ReadStoredIdsFallsBack | app.js:39-49 | a missing or empty entry, unparsable text, or a parsed value that is not an array reads as `[]` |
| StoredIds.FiniteNumbersKeepsOrder | app.js:45 | the finite-number filter distributes over concatenation, so it keeps elements in order |
| StoredIds.FiniteNumbersOfOne | app.js:45 | a one-element array is kept exactly when its element is a finite number |
| StoredIds.WriteStoredIds | app.js:51-57 | an empty list removes the key; any other list is stored as its JSON text; every other key is unchanged |
| StoredIds.WriteThenRead | app.js:39-57 | reading a key after writing a list gives the list again |
| StoredIds.SportInitiallyChecked | app.js:150 | a sport pill starts checked when nothing is stored, and otherwise exactly when its id is stored |
| StoredIds.CheckedSportIdsDefault | app.js:133-136 | the checked ids after rendering are all finite sport ids when nothing is stored, and otherwise the stored ones, in sport order |
| MultiFilter.Delete | app.js:243 | `selected.delete(id)` removes exactly `id`, keeps the other ids in their order and the set duplicate-free, and in a duplicate-free selection closes exactly the one slot `id` held |
| MultiFilter.DeleteAt | app.js:243 | deleting the id at position `i` of a duplicate-free selection leaves the ids before and after it, in order |
| MultiFilter.ItemRows | app.js:216-227 | one option row per visible item, with its name, its id, and whether it is selected |
| MultiFilter.MultiSelectFilter.constructor | app.js:171-179 | a new filter has no items, no selection, and has notified nobody |
| MultiFilter.MultiSelectFilter.Toggle | app.js:241-250 | `toggleSelection` flips `id`, leaves the items alone, and calls `onChange` exactly once |
| MultiFilter.MultiSelectFilter.SetItems | app.js:252-265 | `setItems` replaces the items (an absent list counts as empty), seeds and prunes the selection by `SelectionAfterSetItems`, and never calls `onChange` |
| MultiFilter.MultiSelectFilter.ClickOption | app.js:272-278 | a click on the "No results" row changes nothing; any other row toggles its `data-id` |
| MultiFilter.MultiSelectFilter.ClickPill | app.js:280-288 | a click on a pill's remove button takes its id out of the selection and calls `onChange` once |
| MultiFilter.MultiSelectFilter.SelectedIds | app.js:267 | `getSelectedIds` gives the selection in insertion order, each id once; an id toggled in comes last (`Toggle`, `ToggleTwice`) |
| MultiFilter.MultiSelectFilter.Options | app.js:203-230 | `renderOptions` shows the single "No results" row exactly when no item matches the query, and every other row carries an id; `VisibleItemsSpec` and `ItemRows` give the rows themselves |
| MultiFilter.MultiSelectFilter.Pills | app.js:181-201 | `renderPills` shows exactly the items whose id is selected, in item order |
| MultiFilter.ClickNoResults | app.js:274 | clicking the "No results" row leaves the selection and the notification count unchanged |
| MultiFilter.FilterKeepsNoDuplicates | app.js:259-261 | pruning a duplicate-free selection keeps it duplicate-free |
| MultiFilter.ToggleFlipsOnlyId | app.js:241-246 | toggling flips the membership of exactly `id` and of no other id |
| MultiFilter.ToggleMembership | app.js:241-246 | the same, stated for one id at a time |
| MultiFilter.ToggleTwice | app.js:241-246 | toggling twice restores membership; an absent id leaves the selection exactly as it was, and a present one moves to the end |
| MultiFilter.AddAllMembers | app.js:255 | `restoreIds.forEach(id => selected.add(id))` gives exactly the old ids and the restored ones, without duplicates |
| MultiFilter.SetItemsSeeding | app.js:254-256 | the selection is seeded from `restoreIds` only when it is empty and there is something to restore; a live selection is never overwritten |
| MultiFilter.SetItemsPrunes | app.js:257-262 | after pruning, every selected id is an item id, and every earlier id still present survives in the same relative order |
| MultiFilter.SetItemsWithoutPruning | app.js:252-265 | without pruning, ids the new items lack stay selected |
| MultiFilter.VisibleItemsSpec | app.js:204-209 | an empty or blank query shows all items; otherwise exactly the items whose lower-cased name contains the trimmed, lower-cased query, in item order |
| MultiFilter.BlankQueryShowsAll | app.js:204-209 | any query made only of JavaScript whitespace, the empty one included, shows every item |
| MultiFilter.OptionRowsSpec | app.js:211-230 | the single "No results" row appears exactly when nothing is visible, and it is the only row without an id |
| MultiFilter.PillItemsSpec | app.js:184-185 | the pills are the items whose id is selected, in item order; a selected id without an item makes no pill |
| MultiFilter.OddCountIsParity | app.js:241-246 | an odd toggle count is an odd number of occurrences |
| MultiFilter.ToggleAllKeepsNoDuplicates | app.js:241-246 | any sequence of toggles keeps the selection duplicate-free |
| MultiFilter.ToggleAllOdd | app.js:241-246 | after a sequence of toggles, an id's membership flipped exactly when it was toggled an odd number of times |
| MultiFilter.ToggleAllParity | app.js:241-246 | after a sequence of toggles, an id is selected exactly when its start state matches the parity of its toggle count |
| CivilDate.DaysInMonth | date-utils.js:26 | months have 28 to 31 days, and 29 exactly for February of a leap year |
| CivilDate.NextDay | date-utils.js:26 | the next day is a valid, later date |
| CivilDate.PrevDay | date-utils.js:26 | the previous day is a valid, earlier date |
| CivilDate.Shift | date-utils.js:26 | shifting by `k` days gives a valid date, later for positive `k` and earlier for negative `k` |
| CivilDate.NextPrevInverse | date-utils.js:26 | one day forward and one back cancel, in either order |
| CivilDate.ShiftAdd | date-utils.js:26 | shifting by `a` and then by `b` is shifting by `a + b` |
| CivilDate.ShiftInverse | date-utils.js:26 | shifting by `k` and then by `-k` gives the date back |
| CivilDate.SetDateIsShift | date-utils.js:26 | `setDate(getDate() + k)` moves the date by exactly `k` days, carrying into other months and years |
| CivilDate.Rollovers | date-utils.js:26 | the last day of a month `+1` is the 1st of the next; December 31 `+1` is January 1; March 1 `-1` is February 29 or 28 |
| CivilDate.Digits | date-utils.js:4-5 | a zero-padded numeral has exactly the requested width and only digits |
| CivilDate.DigitsValueOfDigits | date-utils.js:4-5 | a zero-padded numeral reads back as its value |
| CivilDate.PadTwo | date-utils.js:4-5 | `String(n).padStart(2, "0")` is exactly two digits that read back as `n`, for a month or a day |
| CivilDate.FormatLocal | date-utils.js:1-7 | `todayIso` of the local date fields, stated field by field by `TodayIsoFields` and tied to `toISOString` by `FormatLocalIsIso` |
| CivilDate.TodayIsoFields | date-utils.js:1-7 | `todayIso` is the year, `-`, the 1-based month as two digits, `-`, and the day as two digits |
| CivilDate.FormatLocalIsIso | date-utils.js:1-7 | for a four-digit year, `todayIso` equals the date part of `toISOString` |
| CivilDate.IsoDatePart | date-utils.js:27 | `toISOString().split("T")[0]` is the date part |
| CivilDate.ParseMonthDay | date-utils.js:11 | a parsed month and day always form a valid date in the given year |
| CivilDate.ParseDateValue | date-utils.js:9-12 | every date `new Date(value + "T00:00:00")` accepts is a valid calendar date |
| CivilDate.ParseFormatIso | date-utils.js:27 | every date a `Date` can hold reads back from its `toISOString` date part |
| CivilDate.ParseYmdFields | date-utils.js:11 | a valid `YYYY-MM-DD` text denotes the date of its three fields |
| CivilDate.FormatIsoOfParsed | date-utils.js:24-28 | a valid `YYYY-MM-DD` text is the `toISOString` date part of the date it denotes |
| CivilDate.GetShiftedDate | date-utils.js:24-28 | `getShiftedDate` shifts the given date, or today when none is given (`ShiftToday`); when it succeeds and what it gives is stated by `ShiftDateTextSpec` and `ShiftForwardBack` |
| CivilDate.ShiftDateTextSpec | date-utils.js:24-28 | the shift succeeds exactly when the text is a date and both it and the shifted date are in range; the result is the shifted date in ISO form and reads back as that date |
| CivilDate.ShiftByZero | date-utils.js:24-28 | `getShiftedDate(d, 0)` is `d` for a valid `YYYY-MM-DD` date |
| CivilDate.ShiftForwardBack | date-utils.js:24-28 | shifting by `+1` and then by `-1` gives back the original `YYYY-MM-DD` text |
| CivilDate.ShiftToday | date-utils.js:25 | an absent or empty value is replaced by today; a zero shift of today gives `todayIso()` |
| CivilDate.ShiftBetween | date-utils.js:24-28 | a shift between two in-range dates maps the one's ISO text to the other's |
| CivilDate.ShiftedDateRollovers | date-utils.js:26 | the month-end, year-end and leap-day rollovers, as `getShiftedDate` results |
| CivilDate.FormatIsoExample | date-utils.js:27 | March 10, 2024 is written `2024-03-10` |
| AppRequests.IdArray | app.js:375 | an id list as a property value: an array of the ids as numbers |
| AppRequests.Lookup | app.js:375 | `params[key]` is absent exactly when no entry has the key, and otherwise is the value of such an entry |
| AppRequests.ContributionsOfIds | app.js:375-376 | adding an id list appends its pairs after the earlier ones; an empty list adds none |
| AppRequests.AddIds | app.js:375 | assigning a new key keeps the keys distinct, sets that key, leaves every other key alone, and appends the list's pairs |
| AppRequests.SetIdsIfAny | app.js:375 | `if (ids.length) params[key] = ids` adds the key, after the others, exactly when the list is not empty, and changes nothing else |
| AppRequests.CompetitionParams | app.js:374-376 | `sport_ids` and `country_ids` are present exactly when their lists are not empty; the server reads back exactly the sport ids, then the country ids |
| AppRequests.DateRangeFacts | app.js:446-449 | the starting object has distinct keys, no id key, and contributes the date range pair by pair |
| AppRequests.MatchParams | app.js:446-453 | `start_date` and `end_date` are both the date; each of the four id lists is present exactly when it is not empty; the server reads back the date range and then exactly the ids, in that order |
| AppRequests.AppTodayIso | app.js:59 | app.js's `todayIso` is the `toISOString` date part of today |
| AppRequests.MatchDate | app.js:439 | the date asked for is never empty: it is `currentDate` whenever that is set, and otherwise today |
| AppRequests.DateView.constructor | app.js:464 | `handleInit` shows the date from the URL when there is one, and otherwise today |
| AppRequests.DateView.ShiftDay | app.js:483-490 | `shiftDay` stores the shifted date; when the shift throws, `currentDate` stays as it was |
| AppRequests.ShiftDayLandsOnDate | app.js:483-490 | after a successful shift the page shows a valid date the given number of days from the old one, and the next `loadMatches` asks for it |
| SeoText.Slugify | scripts/generate-seo-pages.mjs:17-23 | the result contains only `[a-z0-9-]`, neither starts nor ends with `-`, and never contains `--`; a missing value gives `""` |
| SeoText.SlugifyOfSlug | scripts/generate-seo-pages.mjs:17-23 | a slug is its own slug |
| SeoText.SlugifyIdempotent | scripts/generate-seo-pages.mjs:17-23 | `slugify(slugify(x)) == slugify(x)` |
| SeoText.AmpersandReadsAsAnd | scripts/generate-seo-pages.mjs:20 | an `&` gives the same slug as the word ` and ` |
| SeoText.SlugifyAmpersandWords | scripts/generate-seo-pages.mjs:18-23 | two words around ` & ` give `word-and-word`, lower-cased |
| SeoText.SlugifyExample | scripts/generate-seo-pages.mjs:18-23 | `"A & B"` gives `"a-and-b"` |
| SeoText.EscapeHtml | scripts/generate-seo-pages.mjs:211-216 | `escapeHtml` escapes each character independently (`EscapeHtmlIsPerChar`), leaves no `<`, `>` or `"` (`EscapeHtmlIsSafe`) and is undone by the decoder (`UnescapeEscapeHtml`) |
| SeoText.EscapeHtmlIsPerChar | scripts/generate-seo-pages.mjs:211-216 | the four replacements, `&` first, escape each character independently |
| SeoText.EscapeHtmlIsSafe | scripts/generate-seo-pages.mjs:211-216 | the output has no `<`, `>` or `"`, and every `&` starts `&amp;`, `&lt;`, `&gt;` or `&quot;` |
| SeoText.EscapeHtmlKeepsPlainText | scripts/generate-seo-pages.mjs:211-216 | text without the four special characters passes through unchanged |
| SeoText.UnescapeEscapeHtml | scripts/generate-seo-pages.mjs:211-216 | decoding the four entity references gives the original text back |
| SeoText.BuildSitemap | scripts/generate-seo-pages.mjs:243-248 | `buildSitemap` writes the declaration, the `urlset` element with three lines per address in order, and a final newline (`SitemapLines`, `SitemapListsEachUrl`) |
| SeoText.SitemapIsJoin | scripts/generate-seo-pages.mjs:243-248 | the sitemap is its lines joined by newlines |
| SeoText.SitemapLines | scripts/generate-seo-pages.mjs:243-248 | line by line: the XML declaration, the `urlset` opening, three lines per address in order, the closing tag, and a final empty line |
| SeoText.SitemapListsEachUrl | scripts/generate-seo-pages.mjs:243-248 | the `k`-th address stands alone on line `3k + 3`, inside `<loc>`, and there are `3n + 4` lines |
| SeoText.ReplaceFirst | scripts/generate-seo-pages.mjs:239 | `replace` with a string pattern changes only the first occurrence (`InjectReplacesFirstPlaceholder`), and inserts a `$`-free replacement literally (`SubstitutionLiteral`) |
| SeoText.SubstitutionLiteral | scripts/generate-seo-pages.mjs:239 | a replacement text without `$` is inserted literally |
| SeoText.InjectSeoPages | scripts/generate-seo-pages.mjs:226-241 | a file is written exactly when it can be read and contains the placeholder |
| SeoText.InjectReplacesFirstPlaceholder | scripts/generate-seo-pages.mjs:239 | the links take the place of the first placeholder; the text before and after it is kept, later placeholders included |
| SeoText.InjectOnceReplacesOne | scripts/generate-seo-pages.mjs:239 | the written text is one placeholder shorter and one link block longer |
| SeoGenerator.GeneratorApiUrl | scripts/generate-seo-pages.mjs:10-15 | the address is exactly the trimmed `API_URL` without one final `/`; generation stops with the "Missing API_URL" error exactly when that is empty, that is when the trimmed text is empty or `/` |
| SeoGenerator.GeneratorFetchUrl | scripts/generate-seo-pages.mjs:25-26 | the generator requests the base address followed by the API path |
| SeoGenerator.GeneratorFetchUrlDropsSlash | scripts/generate-seo-pages.mjs:10-26 | a configured address with one final `/` is requested as the address without it followed by the path, so no `//` appears where they meet |
| SeoGenerator.GeneratorFetchUrlKeepsBase | scripts/generate-seo-pages.mjs:10-26 | a configured address without surrounding whitespace or a final `/` is requested as it is, followed by the path |
| SeoGenerator.NonEmptySlugHasName | scripts/generate-seo-pages.mjs:273-275 | the name test of the skip rule is implied by a non-empty slug |
| SeoGenerator.SportPage | scripts/generate-seo-pages.mjs:277-294 | a sport page's landing configuration is exactly that sport's id |
| SeoGenerator.SportLink | scripts/generate-seo-pages.mjs:296-300 | a footer link's URL is the site address followed by its path |
| SeoGenerator.SportPagesMembers | scripts/generate-seo-pages.mjs:272-301 | exactly the sports with a finite id, a name and a non-empty slug get a page |
| SeoGenerator.SportPagesFollowCandidates | scripts/generate-seo-pages.mjs:272-301 | the `k`-th sport page is the page of the `k`-th sport that passes the skip rule |
| SeoGenerator.SportLinksFollowPages | scripts/generate-seo-pages.mjs:277-300 | the `k`-th footer link points to the `k`-th sport page |
| SeoGenerator.First | scripts/generate-seo-pages.mjs:309 | `find` returns an element that passes the test |
| SeoGenerator.FirstAt | scripts/generate-seo-pages.mjs:309 | `find` returns the first element that passes |
| SeoGenerator.FirstNone | scripts/generate-seo-pages.mjs:309 | `find` returns nothing exactly when no element passes |
| SeoGenerator.FirstInFilter | scripts/generate-seo-pages.mjs:304-309 | finding in a filtered array is finding by both tests in the original array |
| SeoGenerator.PickFootballSport | scripts/generate-seo-pages.mjs:303-317 | the sport picked is in the list and passes the skip rule |
| SeoGenerator.PickFootballSportPriority | scripts/generate-seo-pages.mjs:303-317 | the pick is the first candidate with slug `football`; failing that, with slug `soccer`; failing that, whose name contains "football" in any case; otherwise none |
| SeoGenerator.FindCountryByName | scripts/generate-seo-pages.mjs:319-326 | `findCountryByName` gives the first country whose normalised name is the normalised target, or none (`FindByKeySpec`) |
| SeoGenerator.FindByKeySpec | scripts/generate-seo-pages.mjs:319-326 | `findCountryByName` returns the first country whose trimmed, lower-cased name equals the trimmed, lower-cased target, and none when no country has it |
| SeoGenerator.VariantPage | scripts/generate-seo-pages.mjs:348-367 | a country football page's landing configuration is the football id and that country's id |
| SeoGenerator.VariantLink | scripts/generate-seo-pages.mjs:369-373 | a country footer link's URL is the site address followed by its path |
| SeoGenerator.SpecialPagesMembers | scripts/generate-seo-pages.mjs:339-375 | a page is made exactly for each variant whose country is found with a finite id, carrying the football id and that country's id |
| SeoGenerator.SpecialPagesFollowVariants | scripts/generate-seo-pages.mjs:339-375 | the `k`-th country page and link belong to the `k`-th variant whose country is found |
| SeoGenerator.CollectSportPages | scripts/generate-seo-pages.mjs:272-301 | the first loop pushes exactly the sport pages and links, in sport order |
| SeoGenerator.CollectSpecialPages | scripts/generate-seo-pages.mjs:332-375 | the second loop pushes exactly the country pages and links, in the order of the four variants |
| SeoGenerator.CollectPages | scripts/generate-seo-pages.mjs:268-375 | the sport pages come first; the country pages and their links follow only when a football sport is found |
| SeoGenerator.AddUrl | scripts/generate-seo-pages.mjs:403 | `Set.add` keeps the set duplicate-free, adds exactly the address, and keeps the earlier order |
| SeoGenerator.SitemapUrls | scripts/generate-seo-pages.mjs:261-411 | the sitemap lists the four fixed pages first, then each written page's address once, and nothing else |

## Left out

- **The DOM.** Element creation, `innerHTML`, focus and the opening and closing of the options list are not modelled. Neither are `renderMatches`, `formatTeams`, the banner text and the status messages. The rendered options and pills are modelled as the rows and items they show.
- **I/O.**
  - `localStorage` is a map from keys to strings. `JSON.parse` is a parameter; `JSON.stringify` is modelled only for integer arrays.
  - `fetch`, `res.json()`, `window.location` and `window.history` are not modelled. This includes `readDateFromUrl` and `writeDateToUrl`; the date the URL carries is an input of `AppRequests.DateView.constructor`.
  - The generator's `fs` calls (`mkdir`, `readFile`, `writeFile`) are not modelled. A file that cannot be read is the `None` input of `SeoText.InjectSeoPages`.
- **Asynchronous order.**
  - The `loadCompetitions().then(loadMatches)` chains and the `Promise.all` calls of `loadFilters` and the generator are not modelled.
  - The order in which page writes finish, which fixes the order of the sitemap's addresses, is a parameter of `SeoGenerator.SitemapUrls`.
- **The event handlers' own bodies.** The `onChange` callbacks, the sport-pill click handler and the day buttons are left out. Each calls the modelled operations (`writeStoredIds`, the parameter builders, `shiftDay`) with what the DOM holds.
- **The sport pills' DOM state.** `getCheckedSportIds` is modelled only right after rendering, in `StoredIds.CheckedSportIds`. Later checkbox clicks are DOM state.
- **Host dates.**
  - The clock is a parameter.
  - Local time is taken to be UTC, so the time zone dependence of `getShiftedDate` and `shiftDay` is not modelled.
  - `parseDate` accepts only the date-only forms of the ECMAScript format. Engine-specific fallback parsing is not modelled.
  - `formatBannerDate` uses `toLocaleDateString`, which is locale-dependent, and is left out.
- **JavaScript values.**
  - Ids are integers; fractional numbers are not modelled.
  - Ids and other numbers are taken to be safe integers, below 2^53 in magnitude. Beyond that a JavaScript number loses precision, and from 1e21 on `String(n)` switches to exponent form. `JsText.IntToString` and `QueryParams.JsString` write every digit of any integer.
  - Names are strings. A name that is not a string, such as a number coerced by `String`, is not modelled.
  - `toLowerCase` and `trim` cover ASCII letters and the JavaScript whitespace set.
  - Lone surrogates in strings are not modelled: Dafny's `char` is a Unicode scalar value.
- **Generator errors.** The "Unexpected /sports response" and "Unexpected /countries response" errors for a response that is not an array are not modelled: the model takes the arrays as given. The `console.warn` calls are left out, because they do not change any result.
- **Footer markup.**
  - The `localeCompare(…, "en")` sort of the footer links is locale collation and is left out. `SeoGenerator.CollectPages` gives the links in push order, before sorting.
  - The `<a>` markup joined into `footerLinksHtml` is left out. Its labels go through `escapeHtml`, which is modelled.
- **`pageShell`.** The page template with its analytics snippet is literal markup and is not modelled. The page definition it is filled from is modelled.
- InjectOnceReplacesOne: does not count the placeholders; with several, only the first is replaced, which `SeoText.InjectReplacesFirstPlaceholder` states.
- **Replacement patterns.** `SeoText.InjectReplacesFirstPlaceholder` and `SeoText.InjectOnceReplacesOne` assume the link HTML has no `$`. The general `$` pattern substitution is modelled in `SeoText.Substitution`, but no property is proved for it.
- **Response errors.** `ApiClient.ReadResponse` models the status check only. A body that is not valid JSON, which makes `res.json()` reject, is not modelled.
- **The generator's `fetchJson` headers.** Its `Accept: application/json` header is left out; only the URL is modelled (`SeoGenerator.GeneratorFetchUrl`).
