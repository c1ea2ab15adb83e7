# KO4Fun upcoming-events script, modelled in Dafny

`ko_events.py` scrapes the "Upcoming Events" panel of the KO4Fun event page
and posts the schedule to a Discord webhook. Between the browser scrape and
the HTTP calls sits a small amount of deterministic logic, which this project
models and proves things about:

- **Countdown phrases** (`hhmmss_to_text`, module `Countdown`): an `HH:MM:SS`
  countdown is rounded to whole minutes at 30 seconds and written as
  `NOW ACTIVE`, `N minute(s)`, `H hour(s)` or `H hour(s) N minute(s)`.
  A strict reference grammar, `ReadPhrase`, reads a phrase back to the
  minutes it announces, and every phrase reads back to its own rounded total.
- **Status derivation** (the loop at the end of `scrape_events`, module
  `Scrape`): the raw `{name, active, hhmmss}` items become `(name, status)`
  pairs. The loop is an imperative method with `continue`, proved equal to a
  specification function. Lemmas show that it keeps input order, keeps
  exactly the surviving items, gives active items priority, and drops the
  items whose countdown does not parse.
- **Message body** (`build_lines` and the ten-event cap in `main`, module
  `Message`): bullet lines joined by newlines, proved to split back into
  one line per event, at most ten of them.
- **Delivery helpers** (inside `post_webhook`, module `Delivery`): the
  1800-character cap of the plain-text fallback, and the `?`/`&` rule that
  adds `wait=true` to the webhook URL.

The Python built-ins this logic relies on are modelled too (modules `Text`
and `Numerals`): `str.strip()` with Python's whitespace set, `str.split`,
`str.join`, `str(n)` and `int(s)` (surrounding whitespace, a sign, and
underscores between digits). `int()` skips a narrower whitespace set than
`str.strip()`: the separators U+001C to U+001F are not skipped, so a field
holding one is rejected. Strings are sequences of Unicode scalar values,
so a string's length is Python's `len`.

Files: `wrappers.dfy` (Option), `text.dfy`, `numerals.dfy`, `countdown.dfy`,
`scrape.dfy`, `message.dfy`, `delivery.dfy`.

## Model

| member | source | states |
|---|---|---|
| `Text.Strip` | ko_events.py:94 | The stripped name has no whitespace at either end, is no longer than the input, and is empty exactly when the input is all whitespace |
| `Text.StripInfix` | ko_events.py:94 | The stripped name is a contiguous piece of the raw name, and only whitespace is cut from either side |
| `Text.StripUnpadded` | ko_events.py:94 | Stripping a string with no whitespace at its ends leaves it unchanged, so stripping twice is stripping once |
| `Text.StripKeepsOut` | ko_events.py:94 | Stripping introduces no character absent from the input |
| `Text.SplitPieces` | ko_events.py:103 | `split(":")` yields one more piece than there are colons, and no piece contains a colon |
| `Text.SplitAppend` | ko_events.py:103 | Splitting at a separator splits the text on each side of it independently |
| `Text.JoinSplit` | ko_events.py:103 | Joining the pieces of a split with the same separator gives back the original string |
| `Text.SplitJoin` | ko_events.py:115 | Splitting a `"\n".join` of separator-free lines gives back exactly those lines |
| `Numerals.Decimal` | ko_events.py:27 | The f-string rendering of a count is a numeral without leading zeros whose value is the count |
| `Numerals.DecimalOfValue` | ko_events.py:27 | Every numeral without leading zeros is the rendering of its own value, so rendering is one-to-one onto canonical numerals |
| `Numerals.ParseInt` | ko_events.py:103 | `int()` raises on an empty field or one holding only the whitespace it skips |
| `Numerals.StripIntSpaceAgrees` | ko_events.py:103 | In a field without U+001C to U+001F, `int()` skips exactly the whitespace `str.strip()` removes |
| `Numerals.SeparatorRejected` | ko_events.py:103-105 | A field holding any of U+001C to U+001F makes `int()` raise, although `str.isspace()` counts these as whitespace |
| `Numerals.ParseIntDigits` | ko_events.py:103 | `int()` reads a field of plain digits, leading zeros allowed, as the number the digits denote |
| `Numerals.ParseIntOfStr` | ko_events.py:103 | `int(str(x)) == x` for every integer, negative ones included |
| `Numerals.ParseIntCharset` | ko_events.py:102-105 | A field containing anything other than whitespace, digits, signs or underscores makes `int()` raise, which sends the item to `continue` |
| `Countdown.HhmmssToText` | ko_events.py:22-32 | The phrase is `NOW ACTIVE` exactly when the rounded total is not positive; for non-negative fields, exactly when hours and minutes are 0 and seconds are below 30; it never contains a line break |
| `Countdown.PhraseRoundTrip` | ko_events.py:22-32 | Reading the phrase back under the grammar gives `Active` for a non-positive total and otherwise exactly `h*60 + m` plus 1 when `s >= 30`. The grammar admits only positive counts without leading zeros, minute counts of 1..59, and the singular unit exactly for a count of 1 |
| `Countdown.MinutesOnlyRoundTrip` | ko_events.py:26-27 | A total of 1..59 minutes is written as one minute clause that reads back to that total |
| `Countdown.WholeHoursRoundTrip` | ko_events.py:28-31 | A total that is a positive multiple of 60 is written as one hour clause with the minute clause omitted, and reads back to that total |
| `Countdown.HoursAndMinutesRoundTrip` | ko_events.py:28-32 | Any other total of 60 or more is written as `hours` (at least 1) then `mins` (1..59) with `hours*60 + mins` equal to the total |
| `Countdown.PhraseDeterminesMinutes` | ko_events.py:22-32 | Two countdowns share a phrase only when they round to the same total or are both already due |
| `Scrape.ParseHhmmss` | ko_events.py:103 | The three-way unpacking succeeds only on a string with exactly two colons; in particular an empty string fails |
| `Scrape.ParseScrapedCountdown` | ko_events.py:103 | Every `DD:DD:DD` countdown, the shape the page script extracts, parses to its three two-digit fields |
| `Scrape.StatusOfCases` | ko_events.py:94-108 | An item survives only with a non-empty stripped name, which becomes the event name. An active item always gets `NOW ACTIVE`, whatever its countdown. A non-active item survives exactly when its countdown is present and parses, and its status is then the phrase for the parsed fields |
| `Scrape.ScrapedEvents` | ko_events.py:92-110 | The result list is never longer than the item list |
| `Scrape.DeriveStatuses` | ko_events.py:92-110 | The `for`/`continue` loop builds exactly the specification's result list |
| `Scrape.ScrapedEventsTrace` | ko_events.py:92-110 | The k-th result is what the loop body makes of the item at the k-th kept position, kept positions strictly increase (input order is kept), and every item that survives its filters is kept |
| `Scrape.DerivedEventsWellFormed` | ko_events.py:94-109 | Every result has a non-empty name with no surrounding whitespace, and a status that is a well-formed countdown phrase with no line break |
| `Message.BuildLines` | ko_events.py:112-115 | The body is `No events found.` exactly when there are no events, since a non-empty body starts with a bullet |
| `Message.BuildLinesSplit` | ko_events.py:115 | For single-line names and statuses, splitting the body at newlines gives exactly one line `• name : status` per event, in order, with no trailing empty line |
| `Message.MessageBodyLines` | ko_events.py:172 | The posted description has `min(n, 10)` lines, the first events in order, or is `No events found.` for no events |
| `Message.ScrapedEventsSingleLine` | ko_events.py:109-115 | When no scraped name holds a line break, no derived event does either, so the body has one line per event |
| `Delivery.FallbackText` | ko_events.py:158-160 | The fallback never exceeds 1800 characters. A text of at most 1800 characters is kept unchanged. A longer one keeps its first 1797 characters and ends in `…`. The bold title line always survives |
| `Delivery.WaitUrl` | ko_events.py:150 | The webhook URL is a prefix of the post URL, which ends in `wait=true` |
| `Delivery.WaitUrlQuestionMarks` | ko_events.py:150 | The post URL holds no extra `?` when the webhook URL already had one, and exactly one more otherwise |
| `Delivery.AppendParam` | ko_events.py:163 | The `?`/`&` rule adds a parameter as the last one of the URL's query, keeping the existing parameters before it (the query being everything after the first `?`, webhook URLs having no fragment) |
| `Delivery.WaitUrlQuery` | ko_events.py:163 | The query of the post URL is the original query's parameters followed by `wait=true`, or `wait=true` alone when the URL had no query |

## Left out

- The Playwright browser session, page navigation and waits (ko_events.py:35-39, 90): asynchronous I/O against a third-party page.
- The JavaScript walk over the page's DOM (ko_events.py:41-89): its output items are the input of `Scrape.DeriveStatuses`, taken as given.
- `err_body`, `http_post_json`, `verify_webhook` and the try/except/raise flow of `post_webhook` (ko_events.py:16-20, 117-168): network calls through `urllib`, and logging with `print`.
- JSON encoding of the payloads, the embed payload itself, reading `DISCORD_WEBHOOK_URL` and `EVENT_URL` from the environment, and the `asyncio.run(main())` glue.
- Scrape.RawItem: the item is modelled with a string `name` (a missing name is the empty string, as `it.get("name","")` gives), a boolean `active`, and an optional string `hhmmss`; values of other JSON types, which the page script never produces, are not modelled.
- ParseInt: the Unicode decimal digits other than `0`-`9` that Python's `int()` also accepts are not modelled; the page script's `\d{2}` only matches ASCII digits.
- ParseInt: the limit on the number of digits `int()` and `str()` convert (4300 by default since Python 3.11, beyond which they raise) is not modelled; the scraped fields have two digits.
