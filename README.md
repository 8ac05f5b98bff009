# BBC news topic scraper — verified model of its decision core

The scraper asks the user for a topic and opens the BBC search page for it.
It keeps the listed results whose headline or snippet mentions the topic, or
the topic the search box echoes back. It then visits at most five of the kept
articles. For each one it summarises the article text into at most three
sentences and appends a block (headline, link, bulleted summary) to a text
file named after the topic. Finally it reports how many articles it found.

This project models the logic between the browser and the file in Dafny:

- `Text`: the Python string operations the script relies on. These are
  `str.lower()` (ASCII), `str.strip()` with Python's whitespace set, the `in`
  substring test and `" ".join` / `"\n".join`. The module also defines
  `split("\n")`, which the script does not call; it is used to read the
  bullet text back.
- `Relevance`: the four-way case-insensitive containment test.
- `Naming`: the search address, the sanitised output file name and the bullet
  text of a summary.
- `Collection`: the filtering pass over the search results. Unreadable
  entries, empty headlines or links, an absent echoed topic and unresolvable
  links are all skipped. The pass de-duplicates by resolved address, and the
  first entry with an address wins. `Collect` is a loop over a `seq`
  accumulator. It is proved equal to the specification function `Collected`,
  and lemmas about `Collected` characterise its result.
- `Scraping`: the capped visiting loop with its `break` and `continue` and
  the found-articles counter. `Scrape` is proved against the specification
  functions `FoundCount` and `SavedRecords`.
- `Pipeline`: a whole run. The script's three deliberate exits (no topic, no
  search results, nothing relevant) are outcomes, and so is a failure while
  loading the search page, which the script does not catch.

The browser, the link resolver and the summariser are parameters. The
search page is a function from address to echoed topic and listed results,
or to a load failure. Visiting an article is a function from address to
paragraphs, or to a raised navigation. `urljoin` is an arbitrary deterministic function, where `None`
stands for a resolution that raised. The summariser is an arbitrary function
from text and sentence count to sentences, where `None` stands for a summary
or file write that raised.

Two behaviours of the script are worth stating on their own:

- The echoed topic is the search box's `value` attribute. It may be absent.
  Lowering it then raises for every entry that reaches the topic test, and
  the script skips that entry, so nothing is collected
  (`NoEchoedTopicCollectsNothing`). It may also be empty. The empty string
  occurs in every string, so then every result is relevant
  (`EmptyCorrectedTopicMatchesAll`).
- The counter goes up as soon as article text is found, before summarising
  and writing. The reported count is therefore the number of records written
  plus the number of found articles whose summary or write failed
  (`CountedDespiteFailedSummary`).

## Model

| member | source | states |
|---|---|---|
| `Text.Lower` | scrape_bbc_news.py:90-96 | `lower()` keeps the length, leaves no ASCII capital, turns each capital into its small letter and keeps every other character. |
| `Text.Contains` | scrape_bbc_news.py:93-96 | `needle in hay` always holds for the empty needle and never for a needle longer than `hay`. `ContainsIffOccurs` gives its full meaning. |
| `Text.ContainsIffOccurs` | scrape_bbc_news.py:93-96 | Python's `needle in hay` holds exactly when some position of `hay` starts with `needle`. |
| `Text.Strip` | scrape_bbc_news.py:82-84 | `strip()` returns the window of the input from its first to its last non-whitespace character. Everything outside the window is whitespace, and the result is empty exactly when the input is all whitespace. |
| `Text.StripIdempotent` | scrape_bbc_news.py:82-84 | Stripping a stripped string changes nothing. |
| `Text.Join` | scrape_bbc_news.py:131 | `sep.join(parts)` is empty for no parts. Otherwise it starts with the first part and is as long as the parts plus one separator per gap. `JoinSnoc` fixes the rest of its contents. |
| `Text.JoinSnoc` | scrape_bbc_news.py:131 | Joining one more part appends exactly one separator and that part, so the parts appear in order with one separator between neighbours. |
| `Text.SplitJoin` | scrape_bbc_news.py:137 | Splitting a newline-joined non-empty list on newlines gives the list back when no element contains a newline. |
| `Relevance.Relevant` | scrape_bbc_news.py:90-96 | An entry is relevant iff the lower-cased user topic or echoed topic occurs in the lower-cased headline or snippet (four alternatives). |
| `Relevance.RelevantIgnoresCase` | scrape_bbc_news.py:90-96 | Changing the case of ASCII letters in the headline, snippet or either topic leaves the verdict unchanged. |
| `Relevance.RelevantSameTopics` | scrape_bbc_news.py:90-96 | When the echoed topic equals the user's topic, the test reduces to two containments. |
| `Relevance.EmptyCorrectedTopicMatchesAll` | scrape_bbc_news.py:91-96 | An empty echoed topic makes every entry relevant. |
| `Relevance.IncidentalSubstringMatches` | scrape_bbc_news.py:93-96 | Matching is by substring, not by word: topic "art" makes the headline "restart" relevant. |
| `Naming.SearchUrl` | scrape_bbc_news.py:38 | The search address is the fixed BBC search prefix followed by the topic lower-cased (so one character per topic character and no capital letter in the query). |
| `Naming.SearchUrlIgnoresCase` | scrape_bbc_news.py:38 | Two topics give the same search address exactly when they differ only in the case of ASCII letters. |
| `Naming.KeepWordChars` | scrape_bbc_news.py:39 | The regular-expression substitution keeps only characters of `[a-zA-Z0-9_]`, each taken from its input, and never lengthens it. A string made only of such characters is returned whole, and one with none of them gives the empty string. |
| `Naming.KeepWordCharsAppend` | scrape_bbc_news.py:39 | The substitution works piece by piece: the result for a concatenation is the results for the pieces, concatenated in order. |
| `Naming.SafeFilename` | scrape_bbc_news.py:39 | The sanitised stem contains only `[a-z0-9_]` and is no longer than the topic. |
| `Naming.OutputFilename` | scrape_bbc_news.py:39-40 | The file name is `SafeFilename(topic)` followed by `_news.txt`: the part before the suffix is exactly the sanitised stem. |
| `Naming.SafeFilenameIsCharwise` | scrape_bbc_news.py:39 | Sanitising equals a character-by-character reference: a space or `_` becomes `_`, letters are lower-cased, digits kept, all else dropped. |
| `Naming.SpaceBecomesUnderscore` | scrape_bbc_news.py:39 | Sanitising works piece by piece, and each space in the topic becomes exactly one `_`. |
| `Naming.SafeFilenameIdempotent` | scrape_bbc_news.py:39 | Sanitising a sanitised name leaves it unchanged. |
| `Naming.BulletLines` | scrape_bbc_news.py:137 | One bullet per summary sentence, in order, each `"* "` followed by the sentence. |
| `Naming.BulletsLineBySentence` | scrape_bbc_news.py:137 | The bullet text of a non-empty summary, read line by line, has one line per sentence, each `"* "` plus that sentence, in order (when no sentence contains a newline). |
| `Naming.Bullets` | scrape_bbc_news.py:137 | The bullet text of an empty summary is empty; otherwise it opens with `"* "` and the first sentence. `BulletsLineBySentence` gives the rest of its meaning. |
| `Collection.Examine` | scrape_bbc_news.py:77-104 | One entry yields an article exactly when it meets every acceptance condition (`Admits`). Otherwise it is skipped: unreadable, empty headline or link, no echoed topic, not relevant, or the link failed to resolve. |
| `Collection.Collect` | scrape_bbc_news.py:74-104 | The filtering loop builds `Collected` of the entries, with no address twice and no more articles than entries. |
| `Collection.DedupUrls` | scrape_bbc_news.py:99-101 | The collected list never holds an address twice, and it holds an address exactly when some entry contributes an article with it. |
| `Collection.DedupFirstWins` | scrape_bbc_news.py:99-101 | The article kept for an address, headline included, is the one the first entry with that address contributed. |
| `Collection.DedupOrder` | scrape_bbc_news.py:99-101 | The list is ordered by the positions of each address's first matching entry. |
| `Collection.Dedup` | scrape_bbc_news.py:99-101 | Each listed article is one of the entries' contributions, and the list is never longer than the entry list. `DedupUrls`, `DedupFirstWins` and `DedupOrder` give the rest of its meaning. |
| `Collection.CollectedSound` | scrape_bbc_news.py:82-101 | Every collected article comes from an entry with a non-empty stripped headline and link that passed the topic test and whose link resolved to the article's address. |
| `Collection.CollectedComplete` | scrape_bbc_news.py:82-101 | Every entry that meets the acceptance conditions has its resolved address in the list. |
| `Collection.CollectedEmptyIff` | scrape_bbc_news.py:77-109 | Nothing is collected exactly when no entry yields an article. |
| `Collection.NoEchoedTopicCollectsNothing` | scrape_bbc_news.py:61-96 | Without an echoed topic, every entry that reaches the topic test raises, and nothing is collected. |
| `Scraping.Scrape` | scrape_bbc_news.py:114-149 | Visits exactly the first min(cap, length) articles, in order, whatever happened to earlier ones. The counter equals the number of visited articles whose page gave text. Records are those summarised. records ≤ found ≤ visited ≤ cap. |
| `Scraping.FullText` | scrape_bbc_news.py:131 | The article text opens with the first paragraph and is as long as the paragraphs plus one space between neighbours. `FullTextSnoc` fixes the rest of its contents. |
| `Scraping.FullTextSnoc` | scrape_bbc_news.py:131 | Each further paragraph is appended to the article text after exactly one space. |
| `Scraping.RecordOf` | scrape_bbc_news.py:124-144 | An article yields a record exactly when its page gives text and the summary succeeds. The record then carries the article's headline and address and the summary's sentences. |
| `Scraping.SavedWithinFound` | scrape_bbc_news.py:127-144 | No more records than found articles, and no more found articles than visited. |
| `Scraping.SavedRecordsFromArticles` | scrape_bbc_news.py:135-144 | Every record carries the headline and address of a visited article and the summary of that article's text. |
| `Scraping.AllFoundSavedWhenSummariesSucceed` | scrape_bbc_news.py:131-144 | If the summariser never fails, the number of records equals the found count. |
| `Scraping.CountedDespiteFailedSummary` | scrape_bbc_news.py:127-147 | For any article list, the found count equals the number of records written plus the number of articles whose text was found but whose summary or record failed. |
| `Pipeline.Run` | scrape_bbc_news.py:32-156 | No topic stops at once. A failure while loading the search page ends the run. An empty results list stops before filtering. When no entry is relevant the run stops before any visit. Otherwise the run reports the file name, the collected list, and the scrape results with `Scrape`'s guarantees for a cap of 5. |

## Left out

- Browser automation (launching Playwright, navigation, selectors, DOM text
  extraction) is outside the model. Its results are inputs: the search page's
  echoed topic and result entries, and per address a navigation failure or
  the paragraph texts.
- `urljoin` (reference resolution as in section 5.2 of RFC 3986) is an
  arbitrary deterministic function supplied by the caller.
- The LSA summariser (sentence splitting, stemming, singular value
  decomposition) is a library computation over floating point. It is an
  arbitrary function, so nothing is proved about the number or the order of
  the sentences it returns.
- File writes are not modelled: the header block and each record's block. A
  record is modelled as its headline, address and sentences.
- A failed record write is folded into the summariser's failure, which is a
  function of the article text alone. The model therefore cannot express two
  articles with the same text where one write fails and the other succeeds.
- Failures the script does not catch, other than loading the search page,
  are not modelled: writing the header (lines 46-49), launching the browser
  (lines 53-54), the `sleep` at line 149, and any `print` outside a `try`
  that raises, which ends the run.
- A raising `print` inside a `try` is not modelled either. The one at line
  98 would skip the relevant entry, so `Collection.CollectedComplete` would
  not hold for it. The one at line 128 would skip the article without
  counting it. Those at lines 134 and 139 would leave the article counted but
  without a record, which the model can express only as a failed summary.
- Reading the topic from the terminal, the `print` logging, the one-second
  pause between articles and `exit()` are plain I/O and timing.
- `Text.Lower`: does not model full Unicode case mapping. Only ASCII letters
  are lower-cased, so non-ASCII characters that Python lower-cases (some to
  ASCII letters, like the Kelvin sign) are kept as they are.
- `Naming.SafeFilename`: inherits the ASCII-only lower-casing, so a topic
  character whose Unicode lower-case form is an ASCII letter is dropped
  instead of kept.
- `Naming.BulletsLineBySentence`: says nothing about sentences that contain a
  newline. Such a sentence would span more than one line of the bullet text.
