# Twitter scraper harvesting loop, modelled in Dafny

This project models the logic of `scraper.py` that belongs to the scraper itself rather than to Selenium:

- the feed harvester `scrape_tweets`: it reads the rendered tweet cards, saves each complete record, scrolls, and stops after `scroll_limit` consecutive rounds in which the scroll offset did not move;
- the all-or-nothing field extraction `extract_tweet_data`;
- the header-once CSV append `save_to_csv`.

The browser is replaced by data:

- Each element lookup on a card is a `Lookup`: `Found(text)`, `Absent` (Selenium's `NoSuchElementException`) or `Stale` (`StaleElementReferenceException`).
- Each round of the feed is a `Round`: the card snapshot `find_elements` returns, then the `pageYOffset` read after scrolling.
- The CSV file is a sequence of rows. Each row is a sequence of strings.

Modules, one per concern:

- `Wrappers` (`wrappers.dfy`): `Option`, standing in for Python's `None`.
- `Extraction` (`extraction.dfy`): lookups, cards and `extract_tweet_data`.
- `Storage` (`storage.dfy`): the header and `save_to_csv`.
- `Scroll` (`scroll.dfy`): the stall counter. It is a pure step function, its fold over the offsets, and `StopRound`, the number of rounds the loop runs for a given offset sequence. An independent definition, `Reached`, characterizes that number: the least round count whose last `limit` rounds each read the same offset as the round before.
- `Harvest` (`harvest.dfy`): the per-card save/skip loop and the whole `scrape_tweets` loop. `Scrape` is a method whose loop invariants carry the counter bounds, the stall state and the file contents.

Two points where the code decides behaviour that a reader might expect otherwise:

- Offsets 0, 100, 100, 100 with limit 2 make the loop run four rounds. The first round compares against `None` (scraper.py:97, 115), the second moves from 0 to 100, and the third and fourth stall. Counting only the move and the two stalls would give three; the code runs four, and the model follows the code (`Scroll.FourRoundsExample`).
- `extract_tweet_data` catches only `NoSuchElementException`. A stale reference raised by one of its lookups therefore reaches the card loop, which skips the card. The lookups run one after another, so the first lookup that fails decides between "returns `None`" and "raises stale". Neither outcome saves anything.

## Model

| member | source | states |
|---|---|---|
| Extraction.ExtractFields | scraper.py:126-136 | Lookups run in order. The result is a record exactly when every lookup found its element, and the record holds each lookup's text at its position. Otherwise the first lookup that failed decides: `NoTweet` if it was absent, `StaleCard` if it was stale. |
| Extraction.ExtractTweet | scraper.py:124-136 | A card yields a record exactly when all seven lookups succeed. The record is then exactly `[user, handle, post_date, content, reply_count, retweet_count, like_count]`. `None` and the stale exception are told apart by the first lookup that failed. |
| Extraction.NoPartialRecord | scraper.py:126-136 | If any one of the seven lookups is absent or stale, the card yields no record, whatever the other lookups hold. |
| Extraction.SingleAbsentGivesNone | scraper.py:133-136 | A card whose only failing lookup is an absent element gives `None`, not a stale-card skip. |
| Storage.Save | scraper.py:84-92 | One save keeps every existing row unchanged. It adds the header as row 0 only when the file was empty. It adds the data as the last row only when the data is non-empty. Nothing else is written. |
| Storage.SaveAllAppend | scraper.py:87-92 | Saving one list of rows and then another gives the same file as saving the two lists joined. |
| Storage.SaveAllClosedForm | scraper.py:86-92 | Any number of saves turns file F into F, then one header only if F was empty and at least one save ran, then every non-empty data row in call order. |
| Storage.NoHeaderOnExistingFile | scraper.py:89-92 | Saves to a file that already has rows never add a header. They append only the data rows. |
| Storage.HeaderOnceFromEmpty | scraper.py:86-92 | Saves starting from an empty file give the exact header as row 0, followed by the data rows. If no data row spells out the header, no later row is a header. |
| Scroll.After | scraper.py:97-120 | After n rounds the counter is between 0 and n-1. So the first round never counts as a stall. The last observed offset is the offset of the latest round, or unset before any round. |
| Scroll.RoundUpdate | scraper.py:113-120 | A round adds one to the counter exactly when its offset equals the previous round's offset. Otherwise the round resets the counter to 0. Either way, its offset becomes the last observed one. |
| Scroll.CounterIsRepeatRun | scraper.py:113-120 | The counter equals the length of the run of repeated offsets ending at the latest round. Every round in that run repeated its predecessor. The run either starts at the first round or starts right after a change of offset. |
| Scroll.CounterReaches | scraper.py:100 | After n rounds, the exit test `scroll_attempts >= scroll_limit` holds exactly when `Reached` holds: either the limit is not positive, or each of the last `limit` rounds stalled. |
| Scroll.CounterStep | scraper.py:100-120 | A round that starts below the limit is not a stopping point. Its update leaves the counter between 0 and the limit. |
| Scroll.StopRound | scraper.py:95-120 | The number of rounds the loop runs is the least n for which `Reached` holds. The result is `None` exactly when no prefix of the offsets reaches the limit. |
| Scroll.FirstReachedIsStopRound | scraper.py:100-120 | Any round count where the exit test first holds is the stop round. |
| Scroll.LoopExit | scraper.py:100 | Suppose no earlier round met the exit test. Then a counter at the limit means the loop stops at this round, and offsets running out below the limit mean there is no stop round. |
| Scroll.ExitCounter | scraper.py:100-120 | When the loop stops, the counter equals `scroll_limit` exactly, or 0 when the limit is not positive. |
| Scroll.NonPositiveLimitRunsNothing | scraper.py:98-100 | When `scroll_limit <= 0`, the loop body never runs. |
| Scroll.ChangeRestartsCount | scraper.py:115-118 | A change of offset at round k restarts the count. The loop cannot stop at a round after k until `limit` more rounds have stalled. |
| Scroll.FourRoundsExample | scraper.py:95-120 | Offsets 0, 100, 100, 100 with limit 2 run exactly four rounds. |
| Harvest.CardRows | scraper.py:103-108 | A card adds one row, its extracted record, exactly when all seven lookups succeed. Stale and incomplete cards add nothing. |
| Harvest.Records | scraper.py:101-108 | A snapshot adds at most one row per card, and every row has seven fields. |
| Harvest.RecordsAppend | scraper.py:102-108 | The rows of consecutive cards follow one another in card order. |
| Harvest.SkippedCardAddsNothing | scraper.py:103-108 | Removing a stale or incomplete card from anywhere among the cards does not change the saved rows. |
| Harvest.RecordsInCardOrder | scraper.py:101-106 | When every card is complete, row i is card i's record, one row per card. |
| Harvest.SaveCards | scraper.py:102-108 | The per-card loop leaves the file equal to saving the snapshot's records one at a time, in card order. |
| Harvest.Scrape | scraper.py:95-122 | The loop runs exactly `StopRound` rounds of the feed's offsets, or the whole feed when that is `None`. On exit the counter equals the limit, or 0 for a non-positive limit. The counter stays below the limit while the feed lasts. The file gains the records of the rounds run, round by round and card by card. |
| Harvest.HarvestFileShape | scraper.py:84-108 | Harvesting into an empty file gives the header followed by the harvested records, or no rows at all if nothing was saved. Harvesting into a non-empty file only appends the records. |

## Left out

- `create_webdriver_instance`, `login_to_twitter`, `perform_search` and `main` are not modelled. They start the browser, navigate, enter credentials and hold hard-coded configuration, and have no behaviour of their own beyond Selenium calls and timeouts.
- XPath and Selenium semantics are not modelled. This covers which element `.//span` or the `@` heuristic selects, `.text` and `get_attribute`. Each lookup is an input value `Found`/`Absent`/`Stale`.
- `execute_script` scrolling and `sleep(2)` are not modelled. They are timing-dependent. Only the offset read after them matters, and it is an input per round.
- The offset is modelled as an integer compared by equality. The code only ever compares offsets for equality. The model assumes the script never returns `null`: a `null` would equal the initial `None`, so the first round would count as a stall.
- CSV quoting, escaping, UTF-8 encoding and newline handling by Python's `csv.writer` are not modelled. A row is a sequence of strings. Every row the code writes has at least one field, so the file is empty on disk exactly when it has no rows.
- The `print` calls are not modelled; they only write console messages.
- Exceptions other than the two lookup failures are not modelled. A `WebDriverException` from `find_elements` (scraper.py:101), from `execute_script` (scraper.py:111, 113) or from a lookup, or an `OSError` from `open` (scraper.py:87), ends the run with only the rows saved so far. Neither `Lookup` nor `Round` can express such an abort, and the model always runs to the stop round or the end of the feed.
- `get_attribute('datetime')` (scraper.py:129) returns `None` instead of raising when the `<time>` element has no `datetime` attribute. Such a card is saved, and `csv.writer` writes the `None` as an empty field. The model expresses this case only as `Found("")` for the post date. Under that encoding the card counts as `Complete`, so `Extraction.NoPartialRecord` holds of the model but does not exclude this empty field.
- The default `scroll_limit=5` (scraper.py:95) is not modelled: `Harvest.Scrape` takes the limit as a required argument, and a caller relying on the default passes 5.
- Harvest.Scrape: runs over a finite feed. If the feed runs out before the stall counter reaches the limit, it reports `stopped == false`, whereas the source would keep scrolling. The source does not guarantee termination against a live infinite feed.
- Storage.HeaderOnceFromEmpty: the "no later header row" half assumes no data row equals the header text. A tweet whose seven fields spell out the column names would be indistinguishable from a header in the file.
