# GENSCAN: a verified model of the scanner's decision logic

GENSCAN is a wordlist-driven HTTP scanner. The user gives a URL template that
holds the placeholder `SCAN` and a wordlist. The scanner puts each word into the
template, sends a request and reports a hit. How the request is shaped and what
counts as a hit depend on the scan mode. There are three modes: subdomain
enumeration, directory brute force and parameter (or POST field) fuzzing.

This project models the sequential string and decision logic of `GENSCAN.py`
in Dafny and proves what it does:

- `post_body.dfy`, module `PostBody`: the POST-body parser `scan_post`. It is a
  method with a loop that builds the map, proved equal to the specification
  function `ParsePost`. Lemmas give the key set, the last-wins rule and a
  parse-of-encoding round trip.
- `keyword.dfy`, module `Keyword`: `scan_keyword` as a function of the decoded
  body text and the keyword. The search is case-insensitive and there is a
  context window of up to 30 characters on each side of the match.
- `mode.dfy`, module `Mode`: `scan_subdomain` and the mode chain of
  `main_scan`.
- `target.dfy`, module `Target`: the pure parts of `scan_target`. These are
  placeholder substitution, the DNS host name, the directory base URL, POST
  field substitution, the status test and the hit decision for each mode.
  DNS resolution (`resolves`) and the HTTP transport (`send`) are function
  parameters.
- `inputs.dfy`, module `Inputs`: wordlist line normalisation and the parsing of
  `--status-codes`.
- `text.dfy` (`Text`) and `pieces.dfy` (`Pieces`): the Python `str`
  operations the code relies on. These are `strip`, `lower`, `in`, `find`,
  `startswith`, `endswith`, `split`, `join` and `replace`. `split` and
  `replace` match left to right without overlaps, as Python's do. `strip`
  removes the characters `str.isspace` accepts. `lower` is the ASCII case
  mapping only, unlike Python's Unicode `str.lower` (see "Left out").
- `wrappers.dfy` (`Wrappers`): the Option and Result datatypes.

## Model

| member | source | states |
|---|---|---|
| PostBody.SplitPair | GENSCAN.py:26-27 | A piece yields a pair exactly when it contains `=`. The piece is then key + `=` + value, and the key has no `=`, so the split is at the first `=` and the value may contain more `=`. |
| PostBody.ScanPost | GENSCAN.py:21-29 | The loop that fills the dict returns exactly `ParsePost`. That is None for an absent or empty string, otherwise the map collected from the `&`-pieces. |
| PostBody.CollectKeys | GENSCAN.py:25-28 | A key is in the map if and only if some `&`-piece that contains `=` carries it as its key. Pieces without `=` add nothing. |
| PostBody.CollectHasKey | GENSCAN.py:26-28 | Every piece with `=` puts its key into the map. |
| PostBody.CollectEntryFrom | GENSCAN.py:25-28 | Every entry of the map is the key and value of one of the pieces. |
| PostBody.CollectLastWins | GENSCAN.py:28 | A key's value comes from the last piece that carries that key. A later duplicate overwrites an earlier one. |
| PostBody.ParsedEntriesClean | GENSCAN.py:25-28 | Parsed keys contain neither `&` nor `=`. Parsed values contain no `&`. |
| PostBody.SplitPairOf | GENSCAN.py:27 | `k=v` with no `=` in `k` splits back into exactly `(k, v)`. |
| PostBody.ParseEncodedForm | GENSCAN.py:21-29 | Round trip: parsing `k1=v1&k2=v2&...` for a non-empty list of encodable fields gives the form those fields denote, later names overriding earlier ones. |
| Keyword.ContextAt | GENSCAN.py:51-53 | The context cut around a match is at most `len(keyword) + 60` characters long and contains no newline. |
| Keyword.ScanKeyword | GENSCAN.py:44-57 | An absent or empty keyword gives `(False, "")`. Otherwise `found` holds exactly when the lower-cased keyword is a substring of the lower-cased body. A miss has an empty context. The context is at most `len(keyword) + 60` characters and has no newline. |
| Keyword.ScanKeywordFirst | GENSCAN.py:49-53 | On a hit, the context is the window around the first occurrence: for the index `p` of an occurrence of the lower-cased keyword with none before it, the result is `(True, ContextAt(body, p, len(keyword)))`. |
| Keyword.ScanKeywordWindow | GENSCAN.py:50-53 | On a hit, for a keyword without newline or outer whitespace, the lower-cased keyword occurs in the context at an index of at most 30, and at most 30 characters follow it. |
| Keyword.ContextAround | GENSCAN.py:51-53 | For an occurrence at `pos`, the context holds the keyword at an index of at most 30, with at most 30 characters after it. |
| Keyword.NewlinesToSpaces | GENSCAN.py:53 | `.replace('\n', ' ')` keeps the length and turns exactly the newlines into spaces. No newline is left. |
| Keyword.LowerKeepsLayout | GENSCAN.py:48-49 | Lower-casing neither adds newlines nor adds whitespace at the ends. |
| Keyword.ContextAtHasKeyword | GENSCAN.py:50-53 | The window around an occurrence keeps the keyword after newline replacement and stripping, when the keyword has no newline and no outer whitespace. |
| Keyword.ContextHasKeyword | GENSCAN.py:49-54 | On a hit, the context contains the lower-cased keyword whenever the keyword has no newline and no leading or trailing whitespace. |
| Keyword.ContextAtFrom | GENSCAN.py:51-53 | The context is a contiguous piece of the text with its newlines made spaces. |
| Keyword.ContextFromBody | GENSCAN.py:48-53 | The context is always a contiguous piece of the lower-cased body with its newlines made spaces. |
| Text.Find | GENSCAN.py:50 | `find` gives -1 exactly when there is no occurrence. Otherwise it gives an occurrence with no earlier occurrence, which is the first one. |
| Text.Lower | GENSCAN.py:48-49 | `lower()` keeps the length and maps each character on its own, `A`-`Z` to `a`-`z`. |
| Text.Strip | GENSCAN.py:53 | `strip()` gives a contiguous slice of its argument, and that slice has no whitespace at either end. |
| Text.StripRemovesSpace | GENSCAN.py:53 | Everything `strip()` cuts off, before and after the kept slice, is whitespace. Together with `Text.Strip` this fixes the result exactly. |
| Text.StripKeepsAbsent | GENSCAN.py:53 | `strip()` is never longer than its argument and brings in no character the argument lacks. |
| Text.StripPadded | GENSCAN.py:197 | `strip()` removes exactly the whitespace padding around a text with no outer whitespace. |
| Text.StripKeepsOccurrence | GENSCAN.py:53 | Stripping keeps any occurrence of a non-empty needle that has no outer whitespace. |
| Text.StripShiftsOccurrence | GENSCAN.py:53 | Stripping moves an occurrence of such a needle left by the whitespace removed in front, and cuts no more than what followed it. |
| Mode.ScanSubdomain | GENSCAN.py:60-64 | `scan_subdomain` holds exactly when the netloc starts with `SCAN.`. The extra `"SCAN" in netloc` test adds nothing. |
| Mode.Classify | GENSCAN.py:207-215 | Classification picks exactly one mode, in priority order. Subdomain comes first, exactly when the netloc starts with `SCAN.`. Directory comes next, exactly when the URL text ends in `/SCAN` or `/SCAN/`. Param takes everything else. |
| Pieces.ReplaceIsJoinOfSplit | GENSCAN.py:70 | `s.replace(p, r)` equals `r.join(s.split(p))`, an independent reference definition of the substitution. |
| Pieces.ReplaceLength | GENSCAN.py:70 | Each of the `s.count(p)` substitutions trades `len(p)` characters for `len(r)`. |
| Pieces.ReplaceNoMatch | GENSCAN.py:70 | `replace` copies unchanged a stretch at none of whose positions the pattern starts. |
| Pieces.Split | GENSCAN.py:197 | `s.split(sep)` has exactly one piece more than `s` has occurrences of `sep`, so it is never empty. |
| Pieces.SplitJoin | GENSCAN.py:25 | `sep.join(s.split(sep)) == s`: the pieces of a split joined back give the text. |
| Pieces.SplitOfJoin | GENSCAN.py:25 | Splitting a `c`-joined list at `c` gives the list back when no part contains `c`. |
| Target.TargetUrl | GENSCAN.py:70 | The substituted URL is the template's placeholder-separated pieces joined by the stripped word. Each substitution trades 4 characters for the word's length. A template without `SCAN` is unchanged. |
| Target.TargetUrlSinglePlaceholder | GENSCAN.py:70 | In a template `a + "SCAN" + b` where neither `a` nor `b` contains `SCAN`, the stripped word lands exactly in that place. |
| Target.Domain | GENSCAN.py:73 | The host name used for the DNS lookup never contains `/`. |
| Target.DomainOfUrl | GENSCAN.py:73 | For `scheme//host` or `scheme//host/path`, the extracted host is exactly `host`. |
| Target.BaseUrl | GENSCAN.py:96-98 | The base is the template with `SCAN` removed, or that plus one `/`. It always ends in `/`. The `/` is added exactly when it is missing. |
| Target.DirectoryBaseBare | GENSCAN.py:96-98 | For a template `p/SCAN`, the base is `p` without placeholders followed by a single `/`. |
| Target.DirectoryBaseSlash | GENSCAN.py:96-98 | For a template `p/SCAN/`, the base is `p` without placeholders followed by `//`. The slash after the placeholder stays. |
| Target.SubstitutePost | GENSCAN.py:119 | The substituted POST map has exactly the keys of `post_data`. Each value has `SCAN` replaced by the stripped word. |
| Target.SubstitutePostKeepsPlain | GENSCAN.py:119 | A field whose value has no placeholder is sent unchanged. |
| Target.StatusAccepted | GENSCAN.py:88 | The status test (repeated at lines 110 and 136): a non-empty desired list accepts exactly its members. A missing or empty list accepts 200 and nothing else. |
| Target.DesiredCodesAccept | GENSCAN.py:194-202 | With the list parsed from `--status-codes`, the status test of line 88 passes 200 alone when the argument is absent or empty. Otherwise it passes exactly the statuses that some comma-separated entry spells as an integer. |
| Target.ParamRequest | GENSCAN.py:117-133 | The param request goes to the substituted URL with the configured User-Agent and the 5-second timeout. It is a POST exactly when there are POST fields, and then carries them with `SCAN` replaced in each value. Otherwise it is a GET with no form. |
| Target.ScanTarget | GENSCAN.py:67-153 | Subdomain mode sends nothing, and reports no hit, exactly when the host does not resolve. Otherwise it sends a GET of the substituted URL. Directory mode sends a GET of `urljoin(base, word)`. Param mode sends the param request. Subdomain and directory hits are exactly the replies whose status passes. A param hit also needs the lower-cased body to contain the lower-cased keyword, when a keyword is given. |
| Target.HitNeedsAcceptedStatus | GENSCAN.py:69-136 | In all three modes a hit needs a reply whose status passes the same test (lines 88, 110, 136). Every request carries the configured User-Agent and the 5-second timeout. |
| Target.SubdomainLookup | GENSCAN.py:70-77 | For a template `scheme//SCAN.rest/path` with no other `SCAN` and a word without `/`, the host looked up is the stripped word followed by `.rest`. Nothing is sent unless that host resolves. |
| Target.DirectoryTemplateRequest | GENSCAN.py:95-108 | For a template `p/SCAN`, directory mode sends a GET of `urljoin(p' + "/", word)`, where `p'` is `p` without placeholders. |
| Inputs.Words | GENSCAN.py:188 | The word list is no longer than the file, and every word is non-empty with no outer whitespace. |
| Inputs.WordsAppend | GENSCAN.py:188 | The list of a file is the lists of its parts, one after the other, so lines keep their order and their multiplicity. |
| Inputs.WordsSingle | GENSCAN.py:188 | One line gives its stripped form, or nothing when that is empty. |
| Inputs.WordsMembership | GENSCAN.py:188 | A word is on the list exactly when it is the non-empty stripped form of some line. |
| Inputs.WordsIdempotent | GENSCAN.py:188 | Normalising the normalised list changes nothing. |
| Inputs.WordsNeedNoStrip | GENSCAN.py:70 | The `word.strip()` in `scan_target` leaves every listed word unchanged. |
| Inputs.ParseShowInt | GENSCAN.py:197 | `int(str(i)) == i` for every integer of unbounded size (CPython's digit limit is left out, see below). |
| Inputs.ParseInt | GENSCAN.py:197 | `int(t)` succeeds only on a text that starts with a digit or a sign followed by a digit and ends with a digit. A negative value needs a `-` sign and a `-` gives no positive value. Every non-empty all-digit text parses to a natural number. |
| Inputs.ParseIntGrammar | GENSCAN.py:197 | `int(t)` succeeds exactly when `t` is an optional `+` or `-` followed by `digit ('_'? digit)*`. So `"2a0"`, `"_7"`, `"7_"` and `"1__0"` are all errors. |
| Inputs.ParseIntPlus | GENSCAN.py:197 | A leading `+` does not change the value: `int("+" + d) == int(d)` for every digit run `d`. |
| Inputs.ParseIntLeadingZero | GENSCAN.py:197 | A leading zero does not change the value: `int("0" + d) == int(d)`. |
| Inputs.ParseIntUnderscore | GENSCAN.py:197 | An underscore between two digit runs does not change the value: `int(a + "_" + b) == int(a + b)`. |
| Inputs.CodeOfPadded | GENSCAN.py:197 | Whitespace around an entry is ignored: an entry that is whitespace, then `t` with no outer whitespace, then whitespace parses as `int(t)`. So `" 404"` gives 404. |
| Inputs.Code | GENSCAN.py:197 | An entry without outer whitespace parses as it is, and an entry that parses is not blank. `Inputs.CodeOfPadded` adds that surrounding whitespace is ignored. |
| Inputs.CodeOfShowInt | GENSCAN.py:197 | `int(str(i).strip()) == i`: the strip changes nothing on a written-out integer. |
| Inputs.ParseEach | GENSCAN.py:197 | The comprehension succeeds exactly when every entry is an integer, and it then gives one code per entry, in order. |
| Inputs.StatusCodes | GENSCAN.py:194-202 | An absent or empty argument gives no list, which means the implicit 200. Otherwise the result is a failure exactly when some comma-separated entry is not an integer. On success the list has one code per entry, each the entry's `int(code.strip())` in order, and is never empty. |
| Inputs.StatusCodesRoundTrip | GENSCAN.py:197 | Round trip: a non-empty code list written comma-separated parses back to itself. |
| Inputs.StatusCodesSpacedRoundTrip | GENSCAN.py:197-198 | Round trip with `", "`, the separator `main_scan` prints the list with: `"200, 404"` parses back to `[200, 404]`, since the space after each comma is stripped. |

## Behaviour worth knowing

These are facts about the code as written; the model follows it.

- The directory test (GENSCAN.py:210) looks at the whole URL string, not at
  the URL's path. So `http://h/a?x=/SCAN` also selects directory mode.
- A template that ends in `/SCAN/` gives a `base_url` that ends in `//`
  (`DirectoryBaseSlash`). The doubled slash is in `base_url` only; what
  `urljoin` then makes of it is not part of this model.
- `scan_post` silently skips pieces without `=`.
- The status test also has a branch for an empty desired list. This branch is
  unreachable from the command line, because a parsed list is never empty
  (`StatusCodes`).
- The subdomain host (GENSCAN.py:73) is whatever follows the LAST `//` of the
  substituted URL, up to the next `/`. A subdomain template whose path or query
  holds `//`, such as `https://SCAN.example.com/r?u=https://x.com`, has
  `x.com` looked up for every word. `Target.Domain` computes exactly this;
  `Target.DomainOfUrl` states the host only for paths without `//`.

## Left out

- The rate limiter `scan_ratelimit` (GENSCAN.py:32-41) is not modelled. It is
  wall-clock, sleep and lock code. It also appends the timestamp taken before
  the sleep, so its "at most R per second" bound is not enforced as written.
- `scan_worker` and the thread, queue and join orchestration in `main_scan`
  (GENSCAN.py:156-163, 220-238) are concurrency and are not modelled.
- `requests.get`, `requests.post` and `socket.gethostbyname` become the
  parameters `send` and `resolves` of `Target.ScanTarget`. The options
  `verify=False` and `allow_redirects` are not modelled. A
  `RequestException` is the reply `Failed`.
- `urlparse` (GENSCAN.py:61) is not modelled. The netloc is an input of
  `Mode.ScanSubdomain` and `Mode.Classify`.
- `urljoin` (GENSCAN.py:99) is not resolved. A directory request carries the
  symbolic URL `Joined(base, word)`.
- Argument parsing, reading the wordlist file, all `print` output and
  `sys.exit` (GENSCAN.py:167-204, 224-225, 239) are not modelled. This
  includes the exit when a non-POST template lacks `SCAN` (GENSCAN.py:182-184).
  The lines of the file are an input of `Inputs.Words`.
- The bare `except` around body decoding (GENSCAN.py:56-57) and the outer
  `except Exception` of `scan_target` (GENSCAN.py:151-152) are not modelled.
  The body is taken as already-decoded text, and nothing in the modelled logic
  raises.
- The POST fields are an unordered map (`PostBody.Collect`,
  `Target.SubstitutePost`, `Request.form`). Python's dict keeps insertion
  order and a repeated key keeps its first position, so `a=1&b=2&a=3` is sent
  as `a=3&b=2`. The model keeps the keys and values, not the order in which
  the form encodes them.
- Lower-casing is ASCII only. Python's Unicode `str.lower` can change a
  string's length, and that is not modelled.
- Inputs.ParseInt: does not accept the non-ASCII Unicode decimal digits that
  `int` also accepts. It also does not repeat `int`'s own whitespace
  stripping, because its argument is always the result of `.strip()` and
  stripping is idempotent (`Text.StripIdempotent`).
- Inputs.ParseInt: does not model CPython's limit on integer string
  conversion (3.11 and later): `int` and `str` raise `ValueError` for more
  than 4300 digits. The model parses and prints integers of any length, so
  `Inputs.ParseShowInt` and the round trips hold beyond that limit too.
