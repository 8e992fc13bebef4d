# Parameter Bug Hunter Pro: verified model of its core logic

Parameter Bug Hunter Pro is an interactive assistant for web parameter discovery and
triage. This project models in Dafny the parts of it that hold real logic, and proves
properties about them:

- **Parameter classification** (`classify_by_type`). Each parameter name is lowercased
  and checked against an ordered table of six categories, each with its substring
  patterns. The first category with a matching pattern wins. Names that match
  nothing go to `Unknown`. The result is one list per category, in table order.
- **Query-name extraction** (`basic_parameter_extraction`). Each URL's query string is
  split on `&`. Every piece that contains `=` contributes the text before its first
  `=`. The distinct names are emitted in sorted order.
- **Sequential IDOR probe** (`idor_testing`, test type 1). For every ID `i` from `start`
  to `end`, the URL `base?name=i` is requested. Each response that passes the guard is
  recorded with a label: `SUCCESS - Access granted` for 200, `FORBIDDEN` for 403,
  `NOT FOUND` for 404, and `Status: n` for anything else.
- **Report-template input** (`vulnerability_template`). Five prompted fields are read,
  then two lists of lines, each ending at a line reading `done`, and a risk-rating
  choice looked up in `risk_map` with default `Medium`.
- **Filename sanitiser** (`Utils.sanitize_filename`). Each of `<>:"/\|?*` is replaced
  by `_`, then the result is cut to 255 characters.

The loops of the source are Dafny methods with loop invariants. Each method is tied by
its `ensures` to a specification function, and the lemmas prove the promised
properties about those functions.

Modules:

- `Classifier`, `Extraction`, `Idor` and `ReportTemplate` model parameter.py.
- `Utils` models utils.py.
- `Text`, `Order` and `Decimal` model the Python built-ins this code relies on:
  `str.lower`, `in` on strings, `str.split`, `str.strip`, string ordering with
  `sorted`, and `str(int)` with its inverse.
- `Wrappers` holds the `Option` type.

The HTTP request is a function parameter `fetch` from URL to outcome. Console input is
a sequence of lines. Running out of lines (Python's `EOFError`) is the `None` result.

## Model

| member | source | states |
|---|---|---|
| `Classifier.ClassifyByType` | parameter.py:532-549 | The result has one list per category, in table order, with Unknown last; list `k` holds exactly the input names of category `k`, in input order |
| `Classifier.PlaceName` | parameter.py:535-549 | The rule walk for one name (nested loops with the `categorized` flag and `break`s) appends the name to the list of its first matching category, or to Unknown, and changes nothing else |
| `Classifier.Categories` | parameter.py:515-533 | The result keys are the six rule categories in table order, followed by Unknown |
| `Classifier.CategoriesDistinct` | parameter.py:515-533 | No two result keys coincide, so appending through the category name updates one list |
| `Classifier.FirstRuleFrom` | parameter.py:539-546 | The index found has a matching pattern and no rule before it does; the index is past the end when no rule matches |
| `Classifier.CategoryOfIff` | parameter.py:515-549 | A name is placed in `c` if and only if some pattern of `c` occurs in the lowercased name and no earlier category has a match, or `c` is Unknown and no category has a match |
| `Classifier.InCategoryMultiplicity` | parameter.py:532-549 | A name occurs in the list of `c` as often as in the input when its category is `c`, and not at all otherwise |
| `Classifier.InCategoryMembers` | parameter.py:536-549 | A list holds exactly the input names of its category, in their original case |
| `Classifier.ExactlyOneList` | parameter.py:532-549 | Every input name is in the list of its category and in no other list |
| `Classifier.PartitionSize` | parameter.py:532-549 | The list lengths add up to the number of input names |
| `Classifier.InCategoryOrder` | parameter.py:535-549 | Each list is the input at strictly increasing positions, and those are exactly the positions of names of that category |
| `Classifier.CaseInsensitive` | parameter.py:536 | A name and its lowercase form get the same category |
| `Classifier.AuthSearchIsAuthentication` | parameter.py:515-546 | `auth_search` matches an Authentication pattern and a Search/Filter pattern, and goes to the earlier Authentication |
| `Classifier.NoInitialsIsUnknown` | parameter.py:515-549 | A name whose lowercase has none of the patterns' first letters goes to Unknown |
| `Classifier.NoPatternIsUnknown` | parameter.py:548-549 | `xyz123` goes to Unknown |
| `Classifier.ContainsQIsSearch` | parameter.py:515-520 | A name containing `q` or `Q` that the first four rules miss goes to Search/Filter |
| `Classifier.KelvinSignIsUnknown` | parameter.py:536-549 | The model lowercases ASCII letters only, so `"\u212Aey"` keeps its Kelvin sign and goes to Unknown |
| `Text.ContainsIff` | parameter.py:541 | The substring test holds exactly when the pattern occurs at some offset |
| `Text.ToLowerIdempotent` | parameter.py:536 | Lowercasing twice is lowercasing once |
| `Extraction.BasicParameterExtraction` | parameter.py:426-440 | The output is strictly ascending, so it has no duplicates, and holds exactly the collected names |
| `Extraction.NameOf` | parameter.py:432-433 | The name of a piece contains no `=` |
| `Extraction.NameOfPrefix` | parameter.py:432-433 | A piece with a `=` is its name, then `=`, then the rest, so the name is the possibly empty text before the first `=` |
| `Extraction.ExtractedNamesIff` | parameter.py:426-434 | A name is collected if and only if some `&` piece of a non-empty query contains `=` and has that name; other pieces and empty queries add nothing |
| `Extraction.PieceNamesIff` | parameter.py:430-434 | Within one query, a name is collected if and only if some piece with a `=` has it |
| `Extraction.ExtractedNamesClean` | parameter.py:430-434 | Collected names contain neither `&` nor `=` |
| `Extraction.NameOfPair` | parameter.py:432-433 | The name of `name=value` is `name` when `name` has no `=` |
| `Extraction.QueryOfPairs` | parameter.py:428-434 | A query joined with `&` from `name=value` pairs yields exactly the set of those names (extraction inverts query building) |
| `Text.JoinSplit` | parameter.py:430 | Joining the `&` pieces with `&` gives back the query |
| `Text.SplitJoin` | parameter.py:430 | Splitting a join of separator-free pieces gives back the pieces |
| `Text.SplitFirstPiece` | parameter.py:433 | `split('=')[0]` is the text before the first `=` |
| `Text.IndexOf` | parameter.py:433 | The index found is the first occurrence, or the length when there is none |
| `Order.SortedSet` | parameter.py:439 | `sorted` of a set gives its elements, each once, in strictly ascending string order |
| `Order.Minimum` | parameter.py:439 | The element picked is in the set and below every other element |
| `Order.LessTransitive` | parameter.py:439 | Python string order is transitive |
| `Order.LessTotal` | parameter.py:439 | Any two distinct strings are ordered one way or the other |
| `Idor.SequentialIdTest` | parameter.py:704-718 | The probe loop as written returns the probe log of `start..end` under the `if response:` guard |
| `Idor.SequentialIdTestCorrected` | parameter.py:704-718 | The same loop with the guard `response is not None` returns the log under that guard |
| `Idor.RecordedIdsExact` | parameter.py:705-709 | The recorded IDs lie in `start..end` and strictly increase; an ID is recorded if and only if its outcome passes the guard, so a failed request skips only its own ID |
| `Idor.ProbeLogEntries` | parameter.py:705-718 | Entry `k` is the URL of the `k`-th recorded ID with the label of its status |
| `Idor.ProbeLogBound` | parameter.py:705-709 | At most `end - start + 1` entries, and none when `start > end` |
| `Idor.TestUrlInjective` | parameter.py:706 | Different IDs give different URLs |
| `Idor.LabelInjective` | parameter.py:710-718 | Different status codes get different labels |
| `Idor.SuccessLabelIff` | parameter.py:711-726 | The display highlights a result containing `SUCCESS` exactly when the status was 200 |
| `Idor.AsWrittenNeverForbidden` | parameter.py:709-716 | With responses whose truth value follows the `requests` library, the code as written never records FORBIDDEN or NOT FOUND |
| `Idor.CorrectedRecordsForbidden` | parameter.py:709-716 | With the corrected guard, a 403 (or 404) response in the range is recorded as FORBIDDEN (or NOT FOUND) |
| `Idor.ForbiddenTargetExample` | parameter.py:709-714 | Against a target answering 403, the code as written records nothing, while the corrected loop records FORBIDDEN |
| `Idor.GrantOnlyThreeExample` | parameter.py:705-718 | IDs 1..5 against a target granting only ID 3: the code as written records only ID 3 as SUCCESS; the corrected loop records FORBIDDEN, FORBIDDEN, SUCCESS, FORBIDDEN, FORBIDDEN |
| `Decimal.ParseIntToDecimal` | parameter.py:706 | The decimal text of an ID parses back to that ID |
| `Decimal.IntToDecimalInjective` | parameter.py:706 | Different integers print differently |
| `Decimal.NatToDecimal` | parameter.py:718 | The decimal text is non-empty digits with no leading zero |
| `ReportTemplate.RiskRating` | parameter.py:807-814 | The result is one of the five ratings; choice `"k"` for k in 1..5 gives the k-th rating, and any other choice gives `Medium` |
| `ReportTemplate.RiskRatingDistinct` | parameter.py:807-813 | The five listed choices select five different ratings |
| `ReportTemplate.FirstWhere` | parameter.py:790-796 | The index found lies between `from` and the end of input, and the line there satisfies the stop test |
| `ReportTemplate.FirstWhereBefore` | parameter.py:790-796 | No line between `from` and the index found satisfies the stop test |
| `ReportTemplate.FirstWhereAt` | parameter.py:790-796 | The index found is the position before which no line stops and at which one does, or the end of input |
| `ReportTemplate.FirstDone` | parameter.py:790-796 | The search with the stop test `strip().lower() == 'done'`: the index found is a `done` line, or the end of input |
| `ReportTemplate.CollectUntilDone` | parameter.py:790-796 | Both `done` loops (also lines 818-824): the items are the stripped lines before the first `done` line, in order; `finished` is true exactly when such a line exists; reading resumes after it |
| `ReportTemplate.DoneInAnyCase` | parameter.py:792-794 | `" DONE "` ends a list |
| `ReportTemplate.FillTemplate` | parameter.py:775-824 | A template exists exactly when the input lasts through the reference list's `done`; its fields are the stripped answers in prompt order, the steps and references up to their `done` lines, and the rating of the choice line |
| `Text.StripIdempotent` | parameter.py:792 | Stripping twice is stripping once |
| `Text.StripRemovesOnlySpace` | parameter.py:792 | Strip keeps a slice of the line and removes only whitespace before and after it |
| `Utils.SanitizeFilename` | utils.py:80-85 | Length is `min(len, 255)`; position `i` is `_` where the input has an invalid character and the input character otherwise |
| `Utils.ReplaceCharIsSplitJoin` | utils.py:84 | `replace` of one character agrees with splitting on it and joining the pieces with the replacement |
| `Utils.SanitizedHasNoInvalid` | utils.py:82-85 | The output contains none of `<>:"/\|?*` |
| `Utils.SanitizedLength` | utils.py:83-85 | The output length is the input length, capped at 255 |
| `Utils.SanitizeIdempotent` | utils.py:80-85 | Sanitising a sanitised name changes nothing |
| `Utils.SanitizeKeepsValid` | utils.py:82-85 | A name of at most 255 characters with no invalid character comes back unchanged |

## Left out

- Menus, banners, prompts, coloured printing and the display of results. This is interactive console I/O. Only the `SUCCESS` highlight test is stated, as a lemma about labels.
- Reading `urls.txt` and `extracted_params.txt`, and writing `extracted_params.txt`, `classification.json` and the report JSON. This is file I/O. The model takes and returns the lists.
- The SQLite inserts after extraction. SQLite is a foreign library.
- `urlparse`. It is a foreign parser. Each URL is given by its query string; an empty string means no query.
- `make_request` and the `requests` library. They are network I/O. The request is the injected `fetch`. A response is a status code plus the truth value `if response:` sees. `Idor.RequestsTruthiness` gives that truth value as the library documents it: false exactly for status 400-599.
- `int()` parsing of the start and end IDs (a `ValueError` on bad input). IDOR test types 2-4, which hold no code. The bounds are taken as integers.
- The `step_num` and `ref_num` counters. They only number the prompts.
- `str.lower` and `str.strip` use Unicode case mapping and Unicode whitespace. The model covers ASCII letters, and ASCII whitespace including 0x1C-0x1F. For the lowercasing in the `done` test this is exact, since no non-ASCII character lowercases to `d`, `o`, `n` or `e`; the stripping is not (see the next line). For the classifier, only the Kelvin sign U+212A changes a result: Python lowercases `"\u212Aey"` to `"key"`, which is Authentication, while the model keeps the sign and places the name in Unknown (`Classifier.KelvinSignIsUnknown`).
- `ReportTemplate.CollectUntilDone`: strips ASCII whitespace only, where Python's `strip()` also removes Unicode whitespace such as U+00A0 and U+3000. A line `"\u00a0done"` ends a list in Python but not in the model, and a stored step, reference or field with such characters at its ends keeps them in the model. The same applies to `ReportTemplate.FillTemplate`.
- `Classifier.PlaceName`: appends through the index of the category, where the source looks up the category name in the dict. The two agree because the names are distinct (`Classifier.CategoriesDistinct`).
- A request that fails (`make_request` returns `None`, parameter.py:744-746) records nothing. A status other than 200, 403 and 404 is recorded as `Status: n`. `risk_assessment`, the SQLite tables and the project files are not modelled.
- The rest of utils.py (`calculate_hash`, `generate_session_id`, `save_evidence`, `load_json_file`, `print_table`, `progress_bar`, `check_internet`, `get_timestamp`) and error_handler.py. These are library calls, randomness, clock and I/O.

## Findings

| source | as written | input that shows it | evidently intended | confidence | as-written member | corrected member |
|---|---|---|---|---|---|---|
| parameter.py:709 | `if response:` guards the status branches, but a `requests` response is false for any 4xx/5xx status, so the FORBIDDEN (403) and NOT FOUND (404) branches can never run | IDs 1..5 where ID 3 answers 200 and the rest answer 403: only ID 3 is recorded | record every response that arrived (`if response is not None:`), so 403 and 404 get their labels | high; not executed | `Idor.SequentialIdTest` (with `Idor.AsWrittenNeverForbidden`, `Idor.ForbiddenTargetExample`) | `Idor.SequentialIdTestCorrected` (with `Idor.CorrectedRecordsForbidden`, `Idor.GrantOnlyThreeExample`) |
