# scraper.py, modelled in Dafny

This project models the per-page core of a focused web crawler: the
`scraper` entry point of `scraper.py` and the four functions it rests on.

- `tokenize(text)` lower-cases the page text and strips its trailing
  whitespace. It collects every match of
  `[a-zA-Z0-9]+(?:'?[a-zA-Z0-9])*(?:-*[a-zA-Z0-9]+)*` with `re.findall`.
  It then removes English stop words with a loop that calls
  `words.remove(word)` on the list it is iterating over.
- `compute_word_frequencies(tokens)` tallies the tokens in a
  `defaultdict(int)`.
- `extract_next_links(url, resp)` returns nothing unless the status is 200.
  Otherwise it resolves the `href` of every anchor against the page URL and
  cuts each result at its first `#`. It also appends the page URL, the link
  count and the word tallies to `data.txt`.
- `is_valid(url)` applies its gates in code order:
  1. the host must be in the allow-list;
  2. robots.txt must not forbid the link;
  3. the scheme must be `http` or `https`;
  4. the lower-cased path must not match the extension regex.
- `scraper(url, resp)` keeps the extracted links that `is_valid` accepts.

Modules, one file each:

- `Wrappers` (`wrappers.dfy`): `Option`.
- `Seqs` (`seqs.dfy`): subsequences and the order-preserving `Filter`. `Filter` is the list comprehension of `scraper`.
- `Scanner` (`scanner.dfy`): `str.lower`, `str.rstrip`, and the regex as a deterministic left-to-right scanner. The scanner is split into phases that follow the pattern's groups.
- `Tokenizer` (`tokenize.dfy`): the stop-word set, the stop-word loop exactly as written, the `Tokenize` method, and the lemmas that compare the loop with a clean filter.
- `Frequencies` (`frequencies.dfy`): the `ComputeWordFrequencies` loop against the specification function `Tally`, and the proof that `Tally` is the frequency table of its tokens.
- `UrlValidator` (`validator.dfy`): `IsValid` and its gates.
- `Crawler` (`crawler.dfy`): `ExtractNextLinks` and `Scraper` as methods with loops, plus the record that is written to `data.txt`.

Library calls the code relies on are parameters:

- `urljoin` is `resolve`;
- `urlparse` is `parse`, which gives a `UrlParts`;
- the robots.txt lookup of each link is `robots`, which gives a `RobotsOutcome`: `Allow`, `Deny`, or `Error` when setting up or reading the parser raised.

The parsed HTML comes in as a `Document`: the `href` of each anchor in document order (`None` when it has none) and the text from `get_text()`.

### Where the code differs from the intended design

The crawler's intended design asks for four things that the code does not do: a host test by domain suffix, the scheme tested before robots.txt, a robots.txt that cannot be read counting as a refusal, and stop words dropped into a fresh list. It also asks for a minimum token length. The model follows the code:

- The host test is exact membership in a four-element list, not a suffix match. `UrlValidator.HostMatchIsExact` shows that sub-domains and the bare domain are rejected.
- The gates run host, then robots.txt, then scheme, then extension.
- A failure while reading robots.txt is swallowed and checking goes on. The link is treated as allowed ("fail open"), not denied. See `UrlValidator.RobotsErrorActsAsAllow`.
- The stop-word loop removes items from the list it is iterating over. The list iterator advances by index, so after a removal the next word slides into a position that has already been visited and is never tested. `Tokenizer.StopWordLoopSkipsAdjacentStopWord` shows that `"the a"` keeps `"a"`. `Tokenizer.StopWordLoopIsFilterWithoutAdjacentStopWords` shows that the loop equals the clean filter whenever no two stop words are neighbours. `Tokenizer.StopWordLoopDeletesOnlyStopWords` shows that in every case only stop words are deleted. The model keeps this behaviour because it is the program's behaviour.
- There is no minimum token length in the code, and "com", "use" and "will" are not in its stop-word set.

## Model

| member | source | states |
|---|---|---|
| Scanner.LowerChar | scraper.py:25 | the lowered character is never an upper-case letter, and it is a word character, an apostrophe or a hyphen exactly when the original is |
| Scanner.Lower | scraper.py:25 | `lower()` keeps the length of the text |
| Scanner.RStrip | scraper.py:25 | `rstrip()` gives the longest prefix that does not end in whitespace; everything it drops is whitespace |
| Scanner.Normalize | scraper.py:25 | `text.lower().rstrip()`, defined as `RStrip(Lower(text))`; `FindAllWellFormed` and `FindAllIgnoresRStrip` give what the matches of the result are |
| Scanner.WordRunEnd | scraper.py:24 | the run of `[a-zA-Z0-9]` stays in bounds and is non-empty when it starts on a word character |
| Scanner.WordRunEndShape | scraper.py:24 | the run is maximal: word characters up to its end and none at the end |
| Scanner.HyphenRunEnd | scraper.py:24 | the `-*` run stays in bounds |
| Scanner.HyphenRunEndShape | scraper.py:24 | the `-*` run is maximal |
| Scanner.ApostrophePart | scraper.py:24 | the part `[a-zA-Z0-9]+(?:'?[a-zA-Z0-9])*` matched from a word character is non-empty and in bounds |
| Scanner.ApostrophePartEnd | scraper.py:24 | that part ends on a word character, is followed by neither a word character nor `'` plus a word character, so the group cannot be extended |
| Scanner.ApostrophePartChars | scraper.py:24 | that part holds only word characters and apostrophes, each apostrophe between two word characters |
| Scanner.HyphenPart | scraper.py:24 | the part `(?:-*[a-zA-Z0-9]+)*` stays in bounds |
| Scanner.HyphenPartShape | scraper.py:24 | a non-empty hyphen part ends on a word character and holds only word characters and hyphens |
| Scanner.HyphenPartMaximal | scraper.py:24 | the hyphen part is maximal: where it stops, no run of hyphens followed by a word character could be taken as one more group |
| Scanner.TokenEnd | scraper.py:24 | a match that starts on a word character is non-empty and in bounds |
| Scanner.TokenEndMaximal | scraper.py:24 | a match cannot be extended: no word character follows it, nor hyphens then a word character, nor (when it took no hyphen group) an apostrophe then a word character |
| Scanner.Scan | scraper.py:26 | `re.findall` from a position: skips characters where no match can start and takes the match from `TokenEnd` at each word character; `ScanWellFormed`, `ScanKeepsWordChars` and `ScanExtend` give its meaning |
| Scanner.FindAll | scraper.py:26 | `re.findall(pattern, text)` as `Scan` from the start; `FindAllWellFormed` and `FindAllKeepsWordChars` give its meaning |
| Scanner.TokenWellFormed | scraper.py:24 | every match has the pattern's shape: starts and ends on a word character, apostrophes only between word characters, no apostrophe after a hyphen |
| Scanner.WellFormedNoDoubleApostrophe | scraper.py:24 | a match never holds two apostrophes in a row |
| Scanner.ScanWellFormed | scraper.py:26 | every word `findall` returns from a position has the pattern's shape, and is free of upper-case letters when the text is |
| Scanner.FindAllWellFormed | scraper.py:24-26 | every word matched in the normalised text has the pattern's shape and is lower-case |
| Scanner.LowerNoUpper | scraper.py:25 | lowered text has no upper-case letter |
| Scanner.LowerKeepsLowerCase | scraper.py:25 | lowering text without upper-case letters changes nothing |
| Scanner.RStripNoUpper | scraper.py:25 | stripping keeps text free of upper-case letters |
| Scanner.ScanKeepsWordChars | scraper.py:26 | the matches from a position, joined, hold exactly the word characters of the rest of the text, in order: no word character is lost or invented |
| Scanner.FindAllKeepsWordChars | scraper.py:26 | the matches of the whole text hold exactly its word characters, in order |
| Scanner.WordRunEndExtend | scraper.py:24 | appending separator characters does not change a word run |
| Scanner.HyphenRunEndExtend | scraper.py:24 | appending separator characters does not change a hyphen run |
| Scanner.ApostrophePartExtend | scraper.py:24 | appending separator characters does not change the apostrophe part |
| Scanner.HyphenPartExtend | scraper.py:24 | appending separator characters does not change the hyphen part |
| Scanner.ScanOfSeparators | scraper.py:26 | text made only of separator characters has no match |
| Scanner.ScanExtend | scraper.py:26 | appending separator characters does not change the matches |
| Scanner.FindAllIgnoresRStrip | scraper.py:25-26 | stripping trailing whitespace before `findall` does not change the matches |
| Tokenizer.FirstIndex | scraper.py:31 | the index found holds `x`, and no earlier element does |
| Tokenizer.RemoveFirst | scraper.py:31 | `list.remove(x)` deletes exactly the first occurrence of `x` |
| Tokenizer.SweepFrom | scraper.py:29-31 | the loop as written, continued from iterator position `i`: the position advances by one per step, and a stop word read there is removed at its first occurrence; `SweepFromKeepsRest` and `SweepFromClean` give its meaning |
| Tokenizer.StopWordLoop | scraper.py:29-31 | the whole loop, `SweepFrom` from position 0; `StopWordLoopDeletesOnlyStopWords`, `StopWordLoopIsFilterWithoutAdjacentStopWords` and `StopWordLoopSkipsSecondOfPair` give its meaning |
| Tokenizer.Tokens | scraper.py:9-34 | what `tokenize` returns: the loop applied to the matches of the normalised text, with the source's stop-word set; `Tokenize` is proved equal to it |
| Tokenizer.RemoveStopWordKeepsRest | scraper.py:30-31 | removing a stop word gives a subsequence with the same non-stop words |
| Tokenizer.NonStopCons | scraper.py:30 | the clean filter drops a leading stop word and keeps any other leading word |
| Tokenizer.SweepFromKeepsRest | scraper.py:29-31 | the loop from any iterator position gives a subsequence with the same non-stop words |
| Tokenizer.StopWordLoopDeletesOnlyStopWords | scraper.py:29-31 | the loop's result is a subsequence of the matches, no longer than them, with every non-stop word kept in order and with its multiplicity |
| Tokenizer.SweepFromWithoutStopWords | scraper.py:29-31 | from any position, a list without stop words is left unchanged |
| Tokenizer.StopWordLoopWithoutStopWords | scraper.py:29-31 | when no match is a stop word, the loop returns the matches unchanged |
| Tokenizer.RemoveFirstPastPrefix | scraper.py:31 | removing a word absent from a prefix removes it right after that prefix |
| Tokenizer.SweepFromClean | scraper.py:29-31 | behind a prefix without stop words, on a rest without neighbouring stop words, the loop keeps the prefix and filters the rest cleanly |
| Tokenizer.SweepFromCleanKeep | scraper.py:29-31 | the same when the next word is not a stop word |
| Tokenizer.SweepFromCleanStop | scraper.py:29-31 | the same when the next word is a stop word that the loop removes |
| Tokenizer.SweepFromCleanSkipped | scraper.py:29-31 | the same once the iterator has passed the word that slid into the removed word's place |
| Tokenizer.StopWordLoopIsFilterWithoutAdjacentStopWords | scraper.py:29-31 | with no two neighbouring stop words, the loop equals the clean stop-word filter |
| Tokenizer.StopWordLoopSkipsSecondOfPair | scraper.py:29-31 | of two different neighbouring stop words, the loop keeps the second, while the clean filter drops both |
| Tokenizer.StopWordLoopSkipsAdjacentStopWord | scraper.py:12-31 | on the matches `the`, `a` the loop keeps the stop word `a` |
| Tokenizer.Tokenize | scraper.py:9-34 | the result is the stop-word loop applied to the matches of the lowered, stripped text. Every token has the pattern's shape and is lower-case. The result is a subsequence of the matches, no longer, with the same non-stop words. It equals the matches when none of them is a stop word |
| Frequencies.TotalRemove | scraper.py:37-43 | the total of a table is one entry plus the total of the rest |
| Frequencies.TotalUpdate | scraper.py:41 | setting one count changes the total by the difference |
| Frequencies.Tally | scraper.py:37-43 | the table the `defaultdict(int)` loop holds after reading the tokens left to right; `TallyIsFrequencyTable` proves it is their frequency table |
| Frequencies.TallyKeys | scraper.py:37-43 | the keys of the tally are exactly the distinct tokens |
| Frequencies.TallyCounts | scraper.py:37-43 | each count is that token's number of occurrences, at least 1 |
| Frequencies.TallyTotal | scraper.py:37-43 | the counts add up to the number of tokens |
| Frequencies.TallyIsFrequencyTable | scraper.py:37-43 | the tally is the frequency table of the tokens |
| Frequencies.ComputeWordFrequencies | scraper.py:37-43 | the loop builds the tally: keys are the tokens, each count is its number of occurrences, and the counts sum to the number of tokens |
| UrlValidator.RejectsForeignHost | scraper.py:103-104 | a missing host, or one outside the allow-list, is rejected whatever robots.txt says |
| UrlValidator.IsValid | scraper.py:90-132 | `is_valid` on the parsed link and the robots.txt outcome, gates in code order; the four rejection lemmas and `AcceptsWhenAllGatesPass` give both directions of its meaning |
| UrlValidator.BlockedPath | scraper.py:120-128 | the extension regex applied to a path, with `.` not matching a newline and `$` matching before a final newline; `PatternIsSuffixTest` shows it is the `.ext` suffix test on paths without newlines |
| UrlValidator.HostMatchIsExact | scraper.py:96-104 | sub-domains and the bare domain of an allowed host are rejected, and so is a hostname given in upper case |
| UrlValidator.RejectsRobotsDeny | scraper.py:111-112 | a link that robots.txt forbids is rejected |
| UrlValidator.RobotsErrorActsAsAllow | scraper.py:97-114 | a robots.txt failure gives the same verdict as permission |
| UrlValidator.RejectsOtherScheme | scraper.py:117-119 | a scheme other than http and https is rejected |
| UrlValidator.RejectsBlockedExtension | scraper.py:120-128 | a lower-cased path that matches the extension regex is rejected |
| UrlValidator.AcceptsWhenAllGatesPass | scraper.py:90-128 | a link that passes all four gates is accepted. With the four rejection lemmas this gives both directions |
| UrlValidator.LowerIdempotent | scraper.py:128 | lowering twice is lowering once |
| UrlValidator.ExtensionTestIgnoresCase | scraper.py:128 | paths that differ only in letter case get the same verdict |
| UrlValidator.PatternShape | scraper.py:120-128 | a match puts a dot into the path, and a newline when `$` matched before a final newline |
| UrlValidator.SuffixFromPattern | scraper.py:120-128 | for a path without newlines, a match means the path ends in `.` plus the extension |
| UrlValidator.PatternFromSuffix | scraper.py:120-128 | for a path without newlines, ending in `.` plus an extension means a match |
| UrlValidator.PatternIsSuffixTest | scraper.py:120-128 | for a path without newlines, the regex match holds exactly when the path ends in `.` and a listed extension |
| UrlValidator.PatternNeedsDot | scraper.py:120-128 | a path without a dot never matches |
| UrlValidator.BlockedByExtension | scraper.py:120-128 | a listed extension after a dot at the end of a path blocks it |
| UrlValidator.PdfPathBlocked | scraper.py:120-128 | `/x.pdf` is blocked |
| UrlValidator.ExampleForeignDomain | scraper.py:103-104 | `http://evil.com/page.html` is rejected |
| UrlValidator.ExampleBlockedExtension | scraper.py:120-128 | `https://www.ics.uci.edu/x.pdf` is rejected |
| UrlValidator.NewsPathNotBlocked | scraper.py:120-128 | `/news` is not blocked |
| UrlValidator.ExampleAccepted | scraper.py:90-128 | `https://www.ics.uci.edu/news` is accepted when robots.txt allows it, and also when reading robots.txt fails |
| Seqs.Filter | scraper.py:49 | the comprehension keeps only elements that pass the test, and never more than it was given |
| Seqs.FilterCount | scraper.py:49 | the comprehension keeps every occurrence of an accepted value and none of a rejected one |
| Seqs.FilterSubseq | scraper.py:49 | the comprehension keeps the original order |
| Crawler.StripFragment | scraper.py:75 | `split('#')[0]` is the longest prefix without `#`: what follows it is `#` or nothing |
| Crawler.StripFragmentIdempotent | scraper.py:75 | stripping twice is stripping once; a URL is unchanged exactly when it has no `#` |
| Crawler.ExtractedLinks | scraper.py:63-75 | the links `extract_next_links` returns; `ExtractedLinksFacts` gives its meaning and `ExtractNextLinks` is proved equal to it |
| Crawler.ExtractedLinksFacts | scraper.py:63-75 | without status 200 there are no links. Otherwise there is one link per anchor, in order, each the resolved URL up to its first `#` |
| Crawler.ExtractNextLinks | scraper.py:51-88 | the loop returns the resolved, fragment-free link of each anchor, and none without status 200. For a 200 page the record written holds the page URL, the link count and the tally of the page's tokens; no record is written otherwise |
| Crawler.ValidLinksFacts | scraper.py:49 | filtering fragment-free links by `is_valid` keeps their order, keeps only accepted and fragment-free links, and keeps each accepted link as often as it occurs |
| Crawler.Scraper | scraper.py:47-49 | exactly the extracted links that `is_valid` accepts, in order and with their multiplicity, all fragment-free, and none without status 200 |

## Left out

- HTML parsing (`BeautifulSoup`, `find_all('a')`, `get_text()`): the parsed page is an input `Document`.
- `urljoin` and `urlparse` are library code. They are the parameters `resolve` and `parse`, and no property of them is assumed.
- Fetching and parsing robots.txt (`RobotFileParser.set_url`, `read`, `can_fetch`) is network I/O. It is the parameter `robots`, whose outcome for each link is `Allow`, `Deny` or `Error`.
- Writing `data.txt` is file I/O. `ExtractNextLinks` returns the `PageLog` it would append: URL, link count and frequency table. The text format and the `resp` line are not modelled.
- `print` calls are console output and are not modelled.
- Crawler.ExtractNextLinks: the `url` argument is unused by the source and is not a parameter.
- UrlValidator.IsValid: the source re-raises a `TypeError` from the second `urlparse` or from `lower()`. It lets any other exception from `urlparse` in that block escape. `parse` is total here, so these exception paths are not modelled.
- Scanner.Lower: lower-cases ASCII letters only. `str.lower()` also maps non-ASCII characters, a few of them onto ASCII letters (the Kelvin sign to `k`) or onto two characters. Those mappings are not modelled.
- UrlValidator.HostMatchIsExact: `parse` is unconstrained, so the model also covers hostnames with upper-case letters. The real `urlparse(url).hostname` is already lower-cased, so in the program a URL such as `https://WWW.ICS.UCI.EDU/news` passes the host test and can be accepted. The third clause says only that the comparison itself is case-sensitive.
- Crawler.Scraper: `robots` gives one outcome per link string, so every copy of a link gets the same verdict. The source builds a new `RobotFileParser` and reads robots.txt again on each `is_valid` call. Two copies of one link could therefore get different outcomes there, for example one failed read and one refusal. The multiplicity clauses of `Crawler.Scraper` and `Crawler.ValidLinksFacts` hold under the one-outcome-per-link model only.
- Scanner.RStrip: the whitespace set is the one `str.isspace()` accepts.
- Concurrency, persistent stores, a per-host robots.txt cache, and duplicate and trap detection: `scraper.py` contains none of them.
