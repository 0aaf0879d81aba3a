# bol.com Pokémon stock checker: a Dafny model of its decision logic

The stock checker keeps a short list of bol.com product pages under watch.
In each cycle it fetches every page, decides from Dutch phrases whether the
product can be bought, and fingerprints the page with SHA-256. It sends a
Discord alert when a page is in stock and its fingerprint differs from the one
remembered for that URL. The remembered fingerprints live in a state file,
one `url digest` line per product, so they survive a restart.

This project models the three pure parts of that script:

- `Classifier` holds the availability test `page_indicates_in_stock`. Sold-out
  phrases win. Availability phrases come next, then purchase-button labels.
  Any other text, including empty text, is not in stock.
- `StateFile` holds the state-file format: the loading loop of
  `read_last_hashes` with its skip rules, and the lines `save_hashes` writes.
- `Cycle` holds one cycle of `check_all_once`, modelled as a fold over the watch
  list. Each URL comes with its fetch outcome. The fold updates the `url → digest`
  map and collects the URLs alerted about.

`Text` holds the string primitives those parts use: substring search,
lower-casing, finding the first occurrence of a character, and splitting a file
into lines. The `split(" ", 1)` of a state-file line is `StateFile.ParseLine`,
built on that character search. `Wrappers` holds
`Option`.

The fetch result is an input to the cycle: a page or a failure. The digest
function and the in-stock test are parameters of the cycle. The digest is
uninterpreted and deterministic. The in-stock test stands for
`page_indicates_in_stock`, which is `Classifier.PageIndicatesInStock` applied to
the page's extracted text.

Two details of the cycle shape what the model stores:

- The digest covers the entire fetched HTML (line 241).
- An out-of-stock page whose digest changed is not stored when the URL already
  has a record (lines 249-253). Only a URL with no record gets the digest of an
  out-of-stock page.

Two consequences of the code as written are proved as lemmas:

- `NotAvailableReadsAsAvailable`: "niet beschikbaar" ("not available") contains
  "beschikbaar", so the classifier calls it in stock.
- `IdenticalRestockIsSilent`: a product is alerted, then sells out, then comes
  back with a byte-identical page. The return raises no alert, because the old
  digest was kept while the product was sold out.

## Model

| member | source | states |
|---|---|---|
| Text.ContainsMeansMentions | bolcom_pokemon_stock_checker.py:178-184 | The left-to-right search behind `phrase in text` succeeds exactly when `phrase` occurs at some position of `text`. |
| Text.Lower | bolcom_pokemon_stock_checker.py:176 | Lower-casing keeps the length and maps every character to its lower-case form. |
| Text.SplitJoin | bolcom_pokemon_stock_checker.py:213-214 | Writing lines that hold no newline, each followed by a newline, and then reading the file line by line gives back exactly those lines. |
| Text.JoinSplit | bolcom_pokemon_stock_checker.py:213-214 | The lines read from a file, each followed by a newline, rebuild the file, up to a missing final newline. |
| Classifier.ContainsAny | bolcom_pokemon_stock_checker.py:178 | `any(x in text for x in phrases)` holds exactly when one of the phrases occurs in the text. |
| Classifier.PageIndicatesInStock | bolcom_pokemon_stock_checker.py:171-186 | Empty text is not in stock. Lower-cased text with a sold-out phrase is not in stock, even when it also has an availability phrase. Without a sold-out phrase, the text is in stock exactly when it has an availability phrase or a purchase-button label. |
| Classifier.SoldOutTestHasTwoStems | bolcom_pokemon_stock_checker.py:178 | The four sold-out phrases amount to two: "uitverkocht" or "niet leverbaar". The other two both contain "niet leverbaar". |
| Classifier.CaseInsensitive | bolcom_pokemon_stock_checker.py:176 | The verdict does not change when the text is lower-cased first. |
| Classifier.SoldOutAnywhereWins | bolcom_pokemon_stock_checker.py:178-179 | A sold-out phrase anywhere in the text, whatever surrounds it, makes the verdict "not in stock". |
| Classifier.AvailablePhraseWins | bolcom_pokemon_stock_checker.py:181-182 | With no sold-out phrase, an availability phrase anywhere makes the verdict "in stock". |
| Classifier.ButtonPhraseWins | bolcom_pokemon_stock_checker.py:184-185 | With no sold-out phrase, a purchase-button label anywhere makes the verdict "in stock". |
| Classifier.SoldOutBeatsRestockNotice | bolcom_pokemon_stock_checker.py:178-179 | "uitverkocht, maar binnenkort op voorraad" is not in stock, although it contains "op voorraad". |
| Classifier.NotAvailableReadsAsAvailable | bolcom_pokemon_stock_checker.py:181-182 | "niet beschikbaar" is classified as in stock. |
| StateFile.ParseLine | bolcom_pokemon_stock_checker.py:214-221 | A line is skipped exactly when it has no space, and the empty line is one of these. Otherwise the URL is the space-free text before the first space and the digest is everything after it, later spaces included. |
| StateFile.SkippedLineChangesNothing | bolcom_pokemon_stock_checker.py:215-221 | Inserting an empty or space-free line anywhere in the file leaves the loaded state unchanged. |
| StateFile.LoadedKeysComeFromLines | bolcom_pokemon_stock_checker.py:213-221 | A URL is in the loaded state exactly when some line of the file gives a digest for it. |
| StateFile.LastLineWins | bolcom_pokemon_stock_checker.py:218-219 | A URL's loaded digest is the one on the last line for that URL. Later lines overwrite earlier ones. |
| StateFile.LoadedStateIsWellFormed | bolcom_pokemon_stock_checker.py:213-221 | Whatever the file holds, no loaded URL contains a space or newline and no loaded digest contains a newline. |
| StateFile.ParseFormattedLine | bolcom_pokemon_stock_checker.py:231 | A written `url digest` line reads back as that URL and digest when the URL has no space. |
| StateFile.EntryLines | bolcom_pokemon_stock_checker.py:230-231 | The writer emits one `url digest` line per entry, in iteration order. |
| StateFile.SaveThenLoad | bolcom_pokemon_stock_checker.py:213-231 | Round trip: loading the saved file gives back the saved map, in any iteration order. This needs URLs without spaces or newlines and digests without newlines. |
| StateFile.ReadLastHashes | bolcom_pokemon_stock_checker.py:207-224 | The loading loop gives the fold of the file's lines. The result is well formed, and its URLs are exactly those some line gives a digest for. |
| StateFile.EnumerationCountsEntries | bolcom_pokemon_stock_checker.py:230 | `hashes.items()` yields every key exactly once, so an iteration order has exactly as many URLs as the state has entries. |
| StateFile.SaveHashes | bolcom_pokemon_stock_checker.py:227-233 | The loop writes the lines front to back. For a well-formed state, the written file has exactly one line per entry of the state, line i reads back as entry i in iteration order, and loading the file gives back the state. |
| Cycle.CheckUrl | bolcom_pokemon_stock_checker.py:239-256 | A failed fetch changes nothing and alerts no one. A fetched page alerts exactly when it is in stock and its digest differs from the stored one or none is stored. The URL then has a record: the new digest if it alerted or had no record, the old one otherwise. Other URLs are untouched. |
| Cycle.RunCycle | bolcom_pokemon_stock_checker.py:236-257 | After a cycle, the stored URLs are the old ones plus those fetched. An entry whose URL was not fetched keeps its digest. Only fetched URLs are alerted about. |
| Cycle.CheckAllOnce | bolcom_pokemon_stock_checker.py:236-257 | The loop over the watch list computes the fold. When no URL is listed twice, its alerts are exactly those each URL raises against the stored state from before the cycle. |
| Cycle.FailedFetchesAreSkipped | bolcom_pokemon_stock_checker.py:254-256 | A cycle with failed fetches ends exactly as the cycle over only the fetched URLs: a failure neither changes state nor stops later URLs. |
| Cycle.AlertsJudgedAgainstStoredState | bolcom_pokemon_stock_checker.py:243-247 | When no URL is listed twice, the alerts of a cycle are, in list order, those each URL raises on its own against the state from before the cycle. |
| Cycle.EachUrlStoredOnItsOwn | bolcom_pokemon_stock_checker.py:248-253 | When no URL is listed twice, each fetched URL ends the cycle holding what its own check stores against the state from before the cycle. |
| Cycle.SettledCycleIsQuiet | bolcom_pokemon_stock_checker.py:245-253 | A cycle in which every fetched URL already has a record, equal to its digest when in stock, raises no alert and changes nothing. |
| Cycle.SecondCycleIsQuiet | bolcom_pokemon_stock_checker.py:245-253 | Idempotence: a second cycle on the resulting state, over the same pages, raises no alert and returns the state unchanged. Some of its fetches may fail. |
| Cycle.CycleKeepsStateWellFormed | bolcom_pokemon_stock_checker.py:248-253 | A cycle over URLs without spaces or newlines, with a newline-free digest, keeps the state fit for the state file. |
| Cycle.StateSurvivesRestart | bolcom_pokemon_stock_checker.py:262-278 | What a run saves after a cycle is what the next run loads. |
| Cycle.IdenticalRestockIsSilent | bolcom_pokemon_stock_checker.py:245-253 | A first in-stock sighting alerts. A later sold-out page alerts no one. A return to the identical in-stock page alerts no one either. |
| Cycle.ProductUrlsAreUsable | bolcom_pokemon_stock_checker.py:23-28 | The four watched product URLs are distinct, so the per-URL lemmas apply to the real watch list. |

## Left out

- `fetch_page`, `fetch_page_with_browser` and `get_random_headers`: network I/O, random delays, retry with backoff, browser fallback, and header rotation through third-party libraries. Each fetch is an input to the cycle: a page or a failure.
- `send_discord_message`: an HTTP POST whose failures are logged. An alert is modelled only as the URL being appended to the alert list.
- Text extraction with BeautifulSoup (`soup.get_text`) is outside the model. The classifier takes the extracted text. The `if not html` guard is applied to that text, which gives the same verdict: empty HTML extracts to empty text, and empty text contains no phrase.
- Text.Lower: only ASCII letters are lower-cased. Python's `str.lower` also folds non-ASCII letters.
- SHA-256 (`get_hash`) is an uninterpreted deterministic function. A page of `None` counts as the empty string.
- File existence, opening, reading and writing, and the I/O exceptions that are swallowed: only the text of the file is modelled. A missing file loads like an empty one.
- Text.SplitLines: only `\n` ends a line. The translation of `\r` and `\r\n` that text-mode reading performs is left out.
- `main`, the environment configuration, `RUN_ONCE` and the sleep between cycles: these are orchestration. `Cycle.StateSurvivesRestart` covers the save-then-load hand-over between runs.
- Cycle.ProductUrlsAreUsable: proves the watched URLs distinct but not free of spaces and newlines. `StateSurvivesRestart` takes that as a requirement on the URLs it is applied to.
