# Three small scraping clients, modelled in Dafny

This project models the text-processing core of three small Python
command-line clients:

- **The GitHub awesome-list sorter** (`gh_awesome_sorter.py`). It is given an
  awesome list, as `owner/name` or as its `https://github.com/` URL. It looks
  the list up through the GitHub API and downloads the list's README from the
  raw-content host. It harvests the `(https://github.com/owner/name)` links of
  that README and looks up the first `process_count` linked repositories one
  by one, skipping those that do not exist. It returns the rest ordered by
  stars, most first.
- **The Set-Cookie tokenizer of the Fivlytics keyword-analytics client**
  (`fivlytics_keyword_analytics.py`). It splits a `set-cookie` header into
  name/value assignments. `get_tokens` picks the XSRF token and the session
  cookie out of them, and takes the CSRF token from the page's `csrf-token`
  meta element.
- **The job-count providers of jobjective** (`jobjective/jobjective.py`). The
  hh.ru provider joins the leading all-digit words of a heading and reads
  them with `int()`. The Indeed provider finds `Page 1 of … jobs`, drops the
  commas of the captured text and reads it with `int()`.

The network and HTML parsing are inputs to the model:

- The GitHub API and the raw-content host are functions from a request URL to
  the outcome of the request: a transport failure, or a status and a body.
- A BeautifulSoup lookup is the element's text or attributes, or `None`.

The library behaviour the code relies on is written out in the model:

- in `text.dfy`: `str.split()`, `str.strip()` and `str.isspace`;
  `str.isdigit` and `int()`; `str.replace(c, "")` and slicing `[:n]`;
- in `awesome_sorter.dfy`: the stable `list.sort`, as `SortByStars`;
- in `awesome_links.dfy`: `findall` of the third-party `regex` package for
  the link pattern, as `Scan` and `FindLinks`;
- in `job_counts.dfy`: `re.search` for the page-count pattern, as
  `SearchFrom`.

Files:

- `text.dfy`: modules `Wrappers` (`Option` and `Result`) and `Text` (the
  Python string primitives).
- `awesome_links.dfy`: module `AwesomeLinks`, the README link harvester.
- `awesome_sorter.dfy`: module `AwesomeSorter`, with the lookups, the fetch
  loop, the star sort, the whole harvest and `main`'s outcome.
- `set_cookie.dfy`: module `SetCookie`, with `parse_set_cookie` and
  `get_tokens`.
- `job_counts.dfy`: module `JobCounts`, the hh.ru and Indeed counts.

The loops that update variables in the source are methods with `for` or
`while` loops, proved against a specification function:

- the fetch loop of the sorter;
- the dictionary-filling loop of `parse_set_cookie`;
- the digit-accumulating loop of the hh.ru provider.

Expression-level code is functions: URL building, prefix removal, the
regular expressions, `get_repo`/`get_readme` and the Indeed conversion.
`repos.sort(...)` is the library call `list.sort`. It is modelled as a
function, `SortByStars`, an insertion sort that is proved stable.

Some behaviour one might expect from such a tool is not in the code, and so
not in the model:

- The code has no response cache, no concurrent or bounded-parallel fetching,
  no rate-limit detection or retry with backoff, and no deduplication of the
  harvested identifiers. Repeated links are looked up once per occurrence.
- A linked repository that is not found is dropped from the result. It is
  not ranked at the bottom with zero stars.
- Repositories with equal stars keep the order in which they were fetched,
  because `list.sort` is stable. They are not tie-broken by identifier.
- Only the first `process_count` identifiers are looked up. Any failure other
  than "not found" aborts the whole harvest with that error.

## Model

| member | source | states |
|---|---|---|
| Text.NonSpace | jobjective/jobjective.py:39 | the non-whitespace characters of a text, with the result free of whitespace and no longer than the input |
| Text.SplitTokens | fivlytics_keyword_analytics.py:36 | every token of `Split` (`str.split()`) is non-empty and whitespace-free, and together the tokens are exactly the text's non-whitespace characters in order |
| Text.SplitAtSpace | fivlytics_keyword_analytics.py:36 | a whitespace character separates: `split()` of `x + c + y` is `split(x)` followed by `split(y)` |
| Text.SplitWord | fivlytics_keyword_analytics.py:36 | a whitespace-free text splits into itself alone, or into nothing when empty |
| Text.SplitBlank | fivlytics_keyword_analytics.py:36 | an empty or all-whitespace text has no tokens |
| Text.LeadingSpace | fivlytics_keyword_analytics.py:37 | the length of the whitespace at the front: every character before it is whitespace, the one at it is not |
| Text.TrailingStart | fivlytics_keyword_analytics.py:37 | where the whitespace at the back begins: every character from it on is whitespace, the one before it is not |
| Text.Strip | fivlytics_keyword_analytics.py:37 | `strip()` removes exactly the leading and trailing whitespace: the result is the part of the text from its first to its last non-whitespace character, position by position, with only whitespace before and after it |
| Text.StripNoSpace | fivlytics_keyword_analytics.py:37 | `strip()` does not change a whitespace-free text |
| Text.StripKeeps | jobjective/jobjective.py:67 | every non-whitespace character survives `strip()` at its own position, shifted left by the leading whitespace |
| Text.DecimalRoundTrip | jobjective/jobjective.py:45 | the decimal rendering of a natural number is a digit string whose value is that number |
| Text.Remove | jobjective/jobjective.py:67 | `replace(c, "")` leaves no `c` and does not lengthen the text |
| Text.RemoveAbsent | jobjective/jobjective.py:67 | removing a character that does not occur changes nothing |
| Text.PyInt | jobjective/jobjective.py:45 | `int()` succeeds only on text that is not blank after stripping |
| Text.PyIntDigits | jobjective/jobjective.py:45 | `int()` of a string of ASCII digits is its decimal value, and `int("")` raises |
| Text.SliceTo | gh_awesome_sorter.py:118 | `s[:n]` is a prefix of `s` of length `n` clamped to `0..len(s)`, counting a negative `n` from the end |
| AwesomeLinks.RunEnd | gh_awesome_sorter.py:113 | the end of a run of `[^\s/]` characters (stopping at `)` when the lazy quantifier has to): every character before it is in the class, the one at it is not |
| AwesomeLinks.MatchAt | gh_awesome_sorter.py:113 | a match at position `p` starts at `p`, has a non-empty whitespace- and slash-free owner and name, and its text `(https://github.com/owner/name)` or `…/name/)` stands at `p` |
| AwesomeLinks.MatchAtComplete | gh_awesome_sorter.py:113 | wherever a valid link text stands, the pattern matches there with exactly that owner, name and trailing slash |
| AwesomeLinks.LinkAtText | gh_awesome_sorter.py:113 | the part-by-part description of a match equals the concatenated link text, and the match ends right after it |
| AwesomeLinks.ScanSound | gh_awesome_sorter.py:114 | `Scan`, the left-to-right scan over `Attempts` (the pattern tried at each position) that resumes after each match, reports only attempts that succeeded, at or after its start, in increasing order and without overlap |
| AwesomeLinks.ScanComplete | gh_awesome_sorter.py:114 | the scan skips no successful attempt: each lies inside a reported match |
| AwesomeLinks.FullNames | gh_awesome_sorter.py:114 | `findall` returns the captured `owner/name` of each match, one per match, in order |
| AwesomeLinks.FindLinksSound | gh_awesome_sorter.py:114 | every match reported from position `i` on is a real match at or after `i`, and the matches are in increasing order and do not overlap |
| AwesomeLinks.FindLinksComplete | gh_awesome_sorter.py:114 | no match is skipped: every position where the pattern matches is the start of a reported match or lies inside one |
| AwesomeLinks.ExtractedFullNames | gh_awesome_sorter.py:113-114 | every identifier `ExtractFullNames` (the `findall` call) returns is `owner/name`, read from a link text that stands somewhere in the README |
| AwesomeLinks.ExtractWithoutLinks | gh_awesome_sorter.py:114 | a README without `(https://github.com/` yields no identifiers and no error |
| AwesomeSorter.RepoFullName | gh_awesome_sorter.py:102-105 | an argument that starts with `https://github.com/` loses that prefix exactly once; any other argument is kept unchanged |
| AwesomeSorter.GetRepo | gh_awesome_sorter.py:56-79 | a lookup of the URL `RepoApiUrl` builds (the API base followed by the name) succeeds exactly on a non-error reply with a well-formed body; 404 becomes `RepositoryNotFound` carrying the queried name; every other status of 400 to 599 and every transport failure is raised unchanged; a non-error reply whose body does not parse into a repository raises `MalformedRepo`, the parse error |
| AwesomeSorter.ReadmeUrl | gh_awesome_sorter.py:84-86 | the README URL is the raw-content base, then `full_name/default_branch`, then `/README.md` |
| AwesomeSorter.GetReadme | gh_awesome_sorter.py:88-97 | the README text is returned exactly on a non-error reply; 404 becomes `AwesomeReadmeNotFound`; other error statuses and transport failures are raised unchanged |
| AwesomeSorter.FirstFatal | gh_awesome_sorter.py:119-124 | the index of the first outcome that is a failure other than "not found" (or the length when there is none) |
| AwesomeSorter.SuccessesAppend | gh_awesome_sorter.py:122 | one more lookup appends its repository exactly when it succeeded |
| AwesomeSorter.SuccessesCount | gh_awesome_sorter.py:117-124 | every lookup either adds its repository or is counted as a failure |
| AwesomeSorter.SuccessesMembers | gh_awesome_sorter.py:117-124 | a repository is kept exactly when some lookup returned it |
| AwesomeSorter.FetchRepos | gh_awesome_sorter.py:117-124 | the loop looks names up in order, stopping right after the first fatal failure (`FirstFatal` of the `Outcomes`, the per-name lookups); it raises that failure, or otherwise returns the found repositories in lookup order, not-found ones skipped |
| AwesomeSorter.InsertMultiset | gh_awesome_sorter.py:127 | inserting adds exactly the inserted repository |
| AwesomeSorter.InsertSorted | gh_awesome_sorter.py:127 | inserting into a star-sorted list keeps it sorted |
| AwesomeSorter.WithStarsAppend | gh_awesome_sorter.py:127 | the repositories with a given star count in a concatenation are those of each part, in order |
| AwesomeSorter.WithStarsLast | gh_awesome_sorter.py:127 | the repositories with a given star count are those of all but the last, then the last one when it has that count |
| AwesomeSorter.InsertWithStars | gh_awesome_sorter.py:127 | inserting places the new repository after every one with the same star count |
| AwesomeSorter.SortByStarsSorted | gh_awesome_sorter.py:127 | `SortByStars`, the model of `sort(key=stars, reverse=True)`, leaves the list non-increasing by stars |
| AwesomeSorter.SortByStarsPermutation | gh_awesome_sorter.py:127 | the sorted list is a permutation of the input |
| AwesomeSorter.SortByStarsStable | gh_awesome_sorter.py:127 | the sort is stable: for every star count, those repositories keep their input order |
| AwesomeSorter.GetSortedAwesomeListRepos | gh_awesome_sorter.py:100-130 | the harvest returns or raises exactly what `AwesomeListResult` describes (list lookup, README, extraction, `[:process_count]`, fetch loop, sort), and a returned list is sorted by stars; nothing is looked up when the list or its README cannot be read; otherwise the names looked up are the first `process_count` identifiers of the README, in order, up to and including the first fatal one, and all of them on success |
| AwesomeSorter.AwesomeListSorted | gh_awesome_sorter.py:117-130 | a successful harvest is sorted by stars, is a permutation of the found repositories, keeps equal-star repositories in fetch order, has as many entries as lookups minus failed ones, and contains exactly the repositories some lookup returned |
| AwesomeSorter.AwesomeListFailure | gh_awesome_sorter.py:107-124 | a failed harvest raises the list lookup's error, the README's error, or the first fatal lookup of the loop |
| AwesomeSorter.MainReport | gh_awesome_sorter.py:144-154 | `main` shows the first `count` repositories of a successful harvest: a prefix of it as long as `[:count]` is, all but the last `-count` for a negative `count`; a missing repository gives the message naming that repository, a missing README the README message; every other error escapes unchanged |
| SetCookie.IndexOf | fivlytics_keyword_analytics.py:45 | the index of the first occurrence of a character, with no occurrence before it |
| SetCookie.CookieNameValue | fivlytics_keyword_analytics.py:41-46 | `CookieName` and `CookieValue` (`item.split("=", 1)`): the name holds no `=`; a bare item is its own name; otherwise name, `=` and value put back together give the item, so nothing (not even `;`) is dropped and the value may hold further `=` |
| SetCookie.EmptyName | fivlytics_keyword_analytics.py:45-46 | an item starting with `=` assigns its remainder to the empty name |
| SetCookie.AssignCases | fivlytics_keyword_analytics.py:37-46 | `Assign`, one pass of the loop body: a blank item changes nothing, a bare item maps to `None`, otherwise the text before the first `=` maps to the text after it |
| SetCookie.ParseSetCookie | fivlytics_keyword_analytics.py:33-48 | the loop leaves the dictionary `ParseItems` describes: the items of `split()`, assigned in order |
| SetCookie.ParseItemsStep | fivlytics_keyword_analytics.py:36-46 | one more item is one more pass of the loop body |
| SetCookie.SplitItemsStripped | fivlytics_keyword_analytics.py:36-40 | the items of a split header are already stripped and never empty, so the `if not item` guard never fires |
| SetCookie.AssignItem | fivlytics_keyword_analytics.py:37-46 | for a split item the loop body is a plain assignment of its value to its name |
| SetCookie.Names | fivlytics_keyword_analytics.py:36-46 | the names the items assign, position by position |
| SetCookie.ParseItemsKeys | fivlytics_keyword_analytics.py:36-46 | a name is a key of the result exactly when some item assigns it |
| SetCookie.ParseItemsLastWins | fivlytics_keyword_analytics.py:46 | when a name repeats, the last item that assigns it decides its value |
| SetCookie.ParseItemsSize | fivlytics_keyword_analytics.py:36-46 | there are no more keys than items |
| SetCookie.ParsedNames | fivlytics_keyword_analytics.py:36-46 | every key is a prefix of some item of the header and holds neither whitespace nor `=`, and there are no more keys than items |
| SetCookie.NamePrefix | fivlytics_keyword_analytics.py:45 | the name of a whitespace-free item is a prefix of it and holds neither whitespace nor `=` |
| SetCookie.ParseBlank | fivlytics_keyword_analytics.py:36-40 | an empty or all-whitespace header gives an empty dictionary |
| SetCookie.GetUnassigned | fivlytics_keyword_analytics.py:22-24 | `CookieGet` (`cookies.get(name)`) of a name that no item of the header assigns gives `None` rather than an error |
| SetCookie.GetAssigned | fivlytics_keyword_analytics.py:22-24 | `CookieGet` of a name gives the value of the last item that assigns it, `None` when that item is bare |
| SetCookie.GetTokens | fivlytics_keyword_analytics.py:19-30 | a missing header, meta element or `content` attribute raises, in that order of precedence; otherwise the tokens are the `XSRF-TOKEN` and `fivlytics_session` lookups of the parsed header and the meta `content` |
| JobCounts.DecimalValueAppend | jobjective/jobjective.py:41 | appending digits shifts the earlier ones left by as many places |
| JobCounts.DigitRun | jobjective/jobjective.py:38-43 | the number of leading all-digit words: all words before it are digits and the word at it is not |
| JobCounts.HHJobsCount | jobjective/jobjective.py:26-45 | the hh.ru count is 0 without a heading, and otherwise `int()` of the leading all-digit words joined together (`HHCount`); `int()`'s `ValueError` is the `Err` of `ToCount` |
| JobCounts.HHCountValue | jobjective/jobjective.py:38-45 | the count is read exactly when the heading's first word is all digits, and is then the non-negative decimal value of the joined digits; otherwise `int("")` raises |
| JobCounts.DigitRunAppend | jobjective/jobjective.py:42-43 | words after the first non-digit word do not move the end of the run |
| JobCounts.HHIgnoresRest | jobjective/jobjective.py:42-43 | after a non-digit word, whatever follows the heading does not change the count |
| JobCounts.HHGroupedCount | jobjective/jobjective.py:38-45 | a count written as two whitespace-separated digit groups (as in `12 345 вакансий`) reads as the number with the groups joined, the first group shifted left by the length of the second |
| JobCounts.HHCountOf | jobjective/jobjective.py:38-45 | a heading whose leading digit words join to a digit string counts as that string's decimal value |
| JobCounts.SplitTwoWords | jobjective/jobjective.py:39 | two whitespace-free words, each followed by whitespace, are the first two tokens of `split()` |
| JobCounts.LeadingTwoDigitWords | jobjective/jobjective.py:38-43 | two digit words followed by a non-digit word (or nothing) make up the joined digits |
| JobCounts.LineEnd | jobjective/jobjective.py:63 | the end of the current line: no line break before it, one at it unless the text ends |
| JobCounts.LastTail | jobjective/jobjective.py:63 | greedy backtracking: the last position up to a bound where ` jobs` stands, with none after it |
| JobCounts.GroupsInLine | jobjective/jobjective.py:63 | the group of `(.+) jobs` never runs past its line |
| JobCounts.LongestAt | jobjective/jobjective.py:63 | where `Page 1 of ` stands with ` jobs` later on its line, the last such ` jobs` ends a match with the longest group there |
| JobCounts.NoMatchAt | jobjective/jobjective.py:63 | without `Page 1 of `, or without ` jobs` later on its line, nothing matches at that position |
| JobCounts.SearchSound | jobjective/jobjective.py:63 | `SearchFrom` (`re.search`) reports a real match, none starts further left, and at its start no match has a longer group |
| JobCounts.SearchComplete | jobjective/jobjective.py:63 | whenever the pattern matches somewhere, the search finds a match |
| JobCounts.IndeedCount | jobjective/jobjective.py:53-67 | the Indeed count is 0 without the page-count element |
| JobCounts.IndeedNoMatch | jobjective/jobjective.py:63-65 | text where `Page 1 of … jobs` matches nowhere counts as 0 |
| JobCounts.RemoveAppend | jobjective/jobjective.py:67 | removing commas distributes over concatenation |
| JobCounts.RemoveKeeps | jobjective/jobjective.py:67 | characters other than the removed one survive the removal |
| JobCounts.PyIntRejects | jobjective/jobjective.py:67 | `int()` raises on text holding a character that is not a digit, underscore, sign or whitespace |
| JobCounts.IndeedRejects | jobjective/jobjective.py:67 | a captured group that, apart from its commas, holds such a character raises |
| JobCounts.Digits3 | jobjective/jobjective.py:80 | a number below 1000 as exactly three digits with leading zeros, worth that number; a part of `Thousands`, which renders counts only to state `IndeedCountsPage` |
| JobCounts.Thousands | jobjective/jobjective.py:80 | the `{:,}` rendering consists of digits and commas and starts with a digit; `main` prints counts this way, and the model uses it only to write pages for `IndeedCountsPage` |
| JobCounts.RemoveLast | jobjective/jobjective.py:67 | a trailing removed character disappears |
| JobCounts.RemoveGroup | jobjective/jobjective.py:67 | removing the commas from `a,ddd` gives `a` without commas followed by `ddd` |
| JobCounts.ThousandsDigits | jobjective/jobjective.py:67 | the `{:,}` rendering of `n` with its commas removed is a digit string worth `n` |
| JobCounts.IndeedReadsThousands | jobjective/jobjective.py:67 | the comma-removing conversion reads back a count written with thousands separators (such as `1,234`) |
| JobCounts.IndeedCountsPage | jobjective/jobjective.py:63-67 | `Page 1 of <n written with separators> jobs` counts as `n` |

## Left out

- HTTP requests (`requests.get`/`post`, the shared session) are not modelled. Their outcomes are inputs: an oracle from request URL to reply, or the element text `get_tokens` and the providers receive.
- HTML parsing (BeautifulSoup `find`, `.text`, `.attrs`) is not modelled. The found element is an `Option` input.
- `Repo(**response.json())` is not modelled field by field. The JSON decoding is part of the oracle's reply; a body the constructor rejects is `None`, raised as `MalformedRepo`.
- Printing, `Fire` and the `print` of progress messages are not modelled. `main`'s outcome is the `Report` value, and its `[:count]` truncation is kept.
- `get_keyword_analytics`, `Model`, `LevelCount` and `main` of the keyword-analytics client are not modelled. They post to the network and copy dictionary fields, some of them floating point.
- `main` of jobjective and the provider classes' `name` attributes are not modelled. They are presentation; only the `{:,}` number format is modelled, as `Thousands`.
- Text.IsDigit: `str.isdigit` is modelled on ASCII digits only. Python also accepts other Unicode digits, for which `int()` may differ.
- Text.PyInt: `int()` is modelled on ASCII text. Non-ASCII digits are rejected, where Python accepts some of them.
- AwesomeLinks.InClass: the `\s` of the link pattern is modelled as the `str.isspace` character set. The `regex` package's `\s` follows the Unicode White_Space property, which may leave out characters `str.isspace` accepts (such as U+001C to U+001F); on text holding them the model's matches can differ.
- The response cache, concurrent fetching, rate-limit retry with backoff, and identifier deduplication are not in the code, so they are not in the model.
- JobCounts.IndeedCount: its own contract covers only the missing element. What it returns otherwise is stated by `SearchSound`, `SearchComplete`, `IndeedNoMatch`, `IndeedRejects` and `IndeedCountsPage`.
