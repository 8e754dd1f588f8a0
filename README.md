# Help-center sync: slugs and change detection

This project is a Dafny model of two parts of a help-center sync tool. The tool
fetches help-center articles, saves each as a Markdown file named after its
slug, and uploads only the files that changed since the previous run.

- `scraper.dfy` (module `Scraper`) models the string logic of the scraper:
  - how an article's title becomes its slug;
  - the record `save_as_markdown` returns: slug, file path, document text and URL;
  - the filter in `run_scraper` that skips drafts and articles without a body.
- `change_detector.dfy` (module `ChangeDetector`) models the change detector:
  - the state file, a map from slug to `ArticleMetadata`, kept in the class `StateStore`;
  - `build_current_state`;
  - the classification in `detect_changes` into new, updated and deleted slugs;
  - `get_changed_files`, which turns new and updated slugs into upload paths.
- `options.dfy` (module `Options`) holds `Option`. An absent key of a JSON object is `None`.

Some parts of the tool are parameters of the model. Nothing is assumed about
them beyond being functions; in particular the content hash is not assumed
to be injective.

- **Content hash.** `compute_hash` (SHA-256 of the UTF-8 bytes, as a hex
  string) is the parameter `hash: string -> string`.
- **HTML to Markdown.** `clean_html` followed by `markdownify` is the
  parameter `md: string -> string`.
- **Clock.** `datetime.now().isoformat()` is evaluated once per article in
  `build_current_state`, because it is the default argument of `dict.get`.
  Those readings are the parameter `clock`, with `clock[i]` read while
  entering `articles[i]`.

Properties proved:

- **Slugs.** Every slug is well formed: only `a-z`, `0-9` and `-`, and never
  two `-` in a row. Normalising a slug again changes nothing. An article
  without a title gets the slug `untitled`.
- **Saved articles.** `run_scraper` saves exactly the non-draft articles with
  a non-empty body, in input order.
- **Classification.** `new`, `updated` and `deleted` are exactly the set
  equations of `detect_changes`, and they are pairwise disjoint. The state
  stored after a run is the current state, whatever the classification was.
  A second run on the same articles reports nothing.
- **Current state.** Its keys are exactly the articles' slugs, and for
  duplicate slugs the last article wins.
- **Upload paths.** `get_changed_files` gives one path per new or updated slug
  and nothing else. A deleted article is never uploaded.

## Model

| member | source | states |
|---|---|---|
| Scraper.RemoveDisallowed | src/scraper.py:70 | a character occurs in the result of the first substitution exactly when it occurs in the title and is in `[a-zA-Z0-9\s-]`; the text never gets longer |
| Scraper.RemoveDisallowedAppend | src/scraper.py:70 | the first substitution works character by character: on a concatenation it is the concatenation of the results, so kept characters stay in order and keep their count |
| Scraper.RemoveDisallowedChar | src/scraper.py:70 | on a single character the first substitution keeps it exactly when it is in `[a-zA-Z0-9\s-]` |
| Scraper.TrimStart | src/scraper.py:70 | leading-whitespace removal returns a suffix, everything cut off is whitespace, and the result does not start with whitespace |
| Scraper.TrimEnd | src/scraper.py:70 | trailing-whitespace removal returns a prefix, everything cut off is whitespace, and the result does not end with whitespace |
| Scraper.LeadingSpaces | src/scraper.py:70 | the count of leading whitespace: every counted character is whitespace and the next one is not |
| Scraper.Strip | src/scraper.py:70 | `strip()` keeps only characters of its input and leaves no whitespace at either end |
| Scraper.StripIsMiddle | src/scraper.py:70 | `strip()` returns the contiguous part of the text after its leading whitespace, and everything after that part is whitespace |
| Scraper.TrimStartSkipsLeading | src/scraper.py:70 | `lstrip()` cuts off exactly the leading whitespace |
| Scraper.StripKeepsTrimmed | src/scraper.py:70 | `strip()` leaves text that neither starts nor ends with whitespace unchanged |
| Scraper.StripKeepsUnspaced | src/scraper.py:70 | `strip()` leaves text without whitespace unchanged |
| Scraper.LowerChar | src/scraper.py:70 | on the characters the first substitution keeps, lower-casing maps an upper-case letter to the lower-case letter at the same alphabet position and leaves every other character unchanged |
| Scraper.Lower | src/scraper.py:70 | on the kept text the slug computation passes it, `lower()` keeps the length and lower-cases character by character |
| Scraper.LowerAppend | src/scraper.py:70 | lower-casing a concatenation lower-cases each part |
| Scraper.LowerSeparators | src/scraper.py:70 | lower-casing leaves hyphens and whitespace unchanged |
| Scraper.LowerKeptChars | src/scraper.py:70 | after the first substitution, strip and lower, only lower-case letters, digits, hyphens and whitespace remain |
| Scraper.LowerKeepsNonUpper | src/scraper.py:70 | `lower()` leaves text without upper-case letters unchanged |
| Scraper.CollapseFrom | src/scraper.py:71 | collapsing runs of `-` and whitespace leaves only `-` and non-separator characters of the input, with no two `-` in a row |
| Scraper.NonSeparators | src/scraper.py:71 | the characters of a text other than hyphens and whitespace contain no separator |
| Scraper.CollapseKeepsNonSeparators | src/scraper.py:71 | collapsing rewrites only separators: the other characters are kept, in order |
| Scraper.CollapseWord | src/scraper.py:71 | a stretch without separators passes through the collapse unchanged |
| Scraper.CollapseRun | src/scraper.py:71 | each maximal non-empty run of hyphens and whitespace becomes exactly one `-` |
| Scraper.CollapseBetweenWords | src/scraper.py:69-71 | two words separated by any run of hyphens and whitespace come out joined by a single `-` |
| Scraper.Slugify | src/scraper.py:70-71 | every slug is well formed: only `a-z`, `0-9` and `-`, no whitespace, and no two `-` in a row |
| Scraper.RemoveDisallowedKeepsKept | src/scraper.py:70 | the first substitution leaves text made of kept characters unchanged |
| Scraper.CollapseKeepsSlug | src/scraper.py:71 | the collapsing substitution leaves a well-formed slug unchanged |
| Scraper.SlugifyFixesSlug | src/scraper.py:70-71 | a well-formed slug is its own slug |
| Scraper.SlugifyIdempotent | src/scraper.py:70-71 | normalising a slug a second time returns it unchanged |
| Scraper.SlugifyTwoWords | src/scraper.py:69-71 | a title of two ASCII-alphanumeric words separated by spaces or hyphens gives their lower cases joined by one `-`: spaces become hyphens |
| Scraper.LoweredTwoWords | src/scraper.py:70 | the first substitution, `strip()` and `lower()` leave two such words and the run between them in place, lower-casing the words |
| Scraper.TwoWordsKept | src/scraper.py:70 | letters, digits, hyphens and whitespace are all kept by the first substitution |
| Scraper.AlphanumericTitleSlug | src/scraper.py:70-71 | a title of ASCII letters and digits only has its lower case as slug |
| Scraper.LowerAlphanumeric | src/scraper.py:70 | lower-casing ASCII letters and digits gives lower-case letters and digits, no separator, and a well-formed slug |
| Scraper.LowerDefaultTitle | src/scraper.py:65 | the default title `Untitled` lower-cases to `untitled` |
| Scraper.DefaultTitleSlug | src/scraper.py:65-71 | the default title `Untitled` has slug `untitled` |
| Scraper.NothingKeptGivesEmptySlug | src/scraper.py:70-71 | a title with no ASCII letter, digit, whitespace or hyphen has the empty slug |
| Scraper.RemoveDisallowedDropsAll | src/scraper.py:70 | the first substitution empties text with no kept character |
| Scraper.PathJoinParts | src/scraper.py:87 | the joined file path ends with the file name and, for a relative name, starts with the output directory |
| Scraper.DocumentLayout | src/scraper.py:80-84 | the document is the URL line, a blank line, the title as a `# ` heading and then the converted body, each at its stated position |
| Scraper.SaveAsMarkdown | src/scraper.py:61-97 | the record's slug is the normalised title (`Untitled` when absent) and well formed; its path is the output directory joined with `<slug>.md`; its URL is `html_url` or `""`; its content is the document built from the URL, the title and the converted body |
| Scraper.UntitledArticle | src/scraper.py:65-72 | an article without a title is saved under the slug `untitled` |
| Scraper.Kept | src/scraper.py:103-109 | the saved articles are no more than the fetched ones, and each is neither `draft is True` nor without a body |
| Scraper.KeptPositions | src/scraper.py:104-109 | the positions of the saved articles are valid input positions, one per saved article |
| Scraper.KeptAtPositions | src/scraper.py:103-109 | the saved articles are the input articles at strictly increasing positions, so input order is kept |
| Scraper.KeptPositionsComplete | src/scraper.py:104-109 | every non-draft article with a non-empty body is saved |
| Scraper.MapSeq | src/scraper.py:108-109 | one output per input, the i-th being the function applied to the i-th input |
| Scraper.RunScraper | src/scraper.py:100-113 | the loop returns the records of exactly the kept articles, in order, and no more records than articles |
| Scraper.KeptStep | src/scraper.py:104-106 | one loop step adds the current article exactly when it is saved |
| Scraper.MapSeqStep | src/scraper.py:108-109 | appending an article appends its record |
| ChangeDetector.StatePathInjective | src/change_detector.py:79 | distinct slugs have distinct recorded paths |
| ChangeDetector.SlugsOfMembers | src/change_detector.py:70-75 | a slug is among the collected slugs exactly when some article has it |
| ChangeDetector.CurrentState | src/change_detector.py:64-83 | the current state has exactly the articles' slugs as keys; each entry carries its own slug and the path `scraped_articles/<slug>.md` |
| ChangeDetector.LastInPrefix | src/change_detector.py:70-81 | an article stays the last one with its slug when a later article with another slug is added |
| ChangeDetector.LastArticleWins | src/change_detector.py:70-81 | the entry for a slug is built from the last article with that slug: hash of its content, its `updated_at` or the clock reading, its URL |
| ChangeDetector.EntryOfLastArticle | src/change_detector.py:70-81 | every entry comes from the last article with its slug, and its content hash is the hash of that article's content |
| ChangeDetector.BuildCurrentState | src/change_detector.py:64-83 | the loop returns the current state: every article's slug is a key, and the last article with a slug gives its entry |
| ChangeDetector.Classify | src/change_detector.py:103-116 | new, updated and deleted are pairwise disjoint; new and updated are current slugs; updated and deleted are previous slugs |
| ChangeDetector.UpdatedSlugs | src/change_detector.py:110-113 | the loop collects exactly the slugs in both states whose content hashes differ |
| ChangeDetector.ClassifyPartitions | src/change_detector.py:103-116 | every slug of either state is exactly one of new, updated, deleted and unchanged |
| ChangeDetector.ClassifyFromNothing | src/change_detector.py:100-116 | with an empty previous state every current slug is new and nothing is updated or deleted |
| ChangeDetector.ClassifyNoArticles | src/change_detector.py:107-116 | with no articles every previous slug is deleted and nothing is new or updated |
| ChangeDetector.ClassifySameFingerprints | src/change_detector.py:103-116 | states with the same slugs and the same hashes give no changes |
| ChangeDetector.FingerprintsIgnoreClock | src/change_detector.py:70-81 | the clock readings do not affect the slugs or the content hashes of the current state |
| ChangeDetector.SecondRunReportsNothing | src/change_detector.py:100-119 | classifying the same articles against the state they produced reports no changes |
| ChangeDetector.RenamedSlugs | src/change_detector.py:70-75 | giving one article, the only one with its slug, a slug no article has swaps the old slug for the new one among the current slugs |
| ChangeDetector.RenamedHashes | src/change_detector.py:70-81 | after such a rename every slug present in both runs keeps its content hash, whatever the clock readings |
| ChangeDetector.RenameIsNewPlusDeleted | src/change_detector.py:100-116 | for any list of articles, renaming one article's slug to an unused slug reports exactly the new slug as new, the old slug as deleted and nothing as updated, never a rename |
| ChangeDetector.ClassifySwap | src/change_detector.py:103-116 | two states that differ by one slug traded for another, with equal hashes on the common slugs, classify as that one new and that one deleted slug |
| ChangeDetector.ThreeArticleScenario | src/change_detector.py:100-116 | previous `{a: hash("x"), b: hash("y")}` against articles a:"x", b:"z", c:"w" gives new `{c}`, updated `{b}`, deleted `{}` when `hash("y") != hash("z")` |
| ChangeDetector.PathsOf | src/change_detector.py:129 | one path `scraped_articles/<slug>.md` per slug of the set, each path from some slug, and no duplicates |
| ChangeDetector.ChangedFiles | src/change_detector.py:124-129 | the upload list has one path per new or updated slug and nothing else, without duplicates, and is empty exactly when both sets are empty |
| ChangeDetector.DeletedNeverUploaded | src/change_detector.py:116-129 | the path of a deleted slug is never in the upload list |
| ChangeDetector.StateStore.constructor | src/change_detector.py:19-23 | the store starts with the given file |
| ChangeDetector.StateStore.Load | src/change_detector.py:19-35 | a saved state loads as itself; a missing or malformed file gives the empty state, never an error |
| ChangeDetector.StateStore.Save | src/change_detector.py:38-54 | the file is overwritten with the whole state |
| ChangeDetector.StateStore.DetectChanges | src/change_detector.py:86-121 | the result is the classification of the current state against the loaded one, and the file then holds the current state whatever the result |
| ChangeDetector.SaveThenLoad | src/change_detector.py:19-54 | loading after saving a state returns that state |
| ChangeDetector.DetectChangesTwice | src/change_detector.py:100-121 | a second `detect_changes` on the same articles reports three empty sets and leaves the current state stored |
| ChangeDetector.ScrapedState | src/change_detector.py:70-81 | built from the scraper's records, every key is a well-formed slug and every `last_modified` is a clock reading |
| ChangeDetector.LastClockReading | src/change_detector.py:78 | without `updated_at`, an entry's `last_modified` is one of the clock readings |
| ChangeDetector.DefaultOutputPath | src/change_detector.py:79 | for a well-formed slug, the scraper's file path under the default directory is the path the state records and uploads |

## Left out

- `scrape_articles`, the HTTP fetch with its error path returning `[]`, is out because it is network I/O. `RunScraper` takes the fetched articles as its input.
- `clean_html` and `markdownify` are out because they are calls into BeautifulSoup and markdownify. Together they are the opaque parameter `md`.
- File writes, `os.makedirs`, the JSON text of the state file and `print` are out because they are I/O. The state file is the abstract `StateFile`: `Missing`, `Corrupt` (unreadable, not JSON, or entries that are not `ArticleMetadata`), or `Written` with a state.
- ChangeDetector.StateStore.Save: a write that fails part-way is not modelled. The source overwrites the file in place, with no write-then-rename, so the file can be left truncated. The next `Load` then sees `Corrupt`, which the model does cover.
- SHA-256 is out because it is a foreign primitive. It is the parameter `hash`, assumed to be neither injective nor anything else.
- `datetime.now()` is out because it is a clock. Its readings are the parameter `clock`, one per article, and their format is not modelled.
- JSON `null` values for `title`, `body` or `html_url` are out. `Option` models only a present or absent key. A present `null` title would make the first substitution raise in the source.
- Article records are assumed to have the `slug`, `markdown_content` and `url` keys that `build_current_state` indexes; the `KeyError` raised for a missing key is not modelled.
- Scraper.Lower: `LowerChar` shifts only ASCII upper-case letters, so it agrees with Python's `str.lower()` only on ASCII letters, digits, whitespace and `-`. `str.lower()` also lower-cases other letters (`É`) and can change the length (`İ`). The slug computation applies `lower()` only after the first substitution, which has removed every other character, so the slug is not affected.
- ChangeDetector.StateStore.Load: `ArticleMetadata(**meta)` checks only the key names, so an entry with the five keys but a non-string value, such as a number, loads without error in the source. `Written` holds only string fields, so such a state is not represented.
- Python strings may hold lone surrogates, such as a JSON `"\ud800"` in the state file or the fetched articles. Dafny's `char` has no such value, so those strings are not represented.
- ChangeDetector.ChangedFiles: the list order of `get_changed_files` follows Python's set iteration order, which is unspecified. The model picks an arbitrary order and states only membership, length and the absence of duplicates.
- `src/vector_store.py` is out because it wraps an OpenAI client doing file and network I/O.
- `main.py` is out because it is orchestration with logging and `sys.exit`. As written it calls `run_scraper(limit=40)`, a parameter `run_scraper` does not have, and it imports `run_vector_store_setup`, which `src/vector_store.py` does not define.
- The scraper's records have no `updated_at` key. So in the tool as written every `last_modified` is the time of the run, not the article's update time (`ChangeDetector.ScrapedState`). This is not a defect of the change detector; the model records it as stated.
