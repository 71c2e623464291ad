# article_qiita utilities in Dafny

This project models the standalone Python utilities of the `article_qiita`
repository and proves what they promise. There are six of them:

- `int2ordinal` turns a natural number into its English ordinal label
  ("0th", "1st", "2nd", "3rd", "11th", "121st"). Module `OrdinalFunc`.
- `IterClass` is a minimal iterable: each `iter()` starts a fresh generator
  over the stored list. Module `IterMinimum`.
- `Unit` and `Series` are a number with an enabled flag and an append-only
  series of units, where a unit can be disabled by its Python index (negative
  indices count from the end). Module `IterAdvanced`, written as classes:
  `Unit.enabled` and `Series.units` are updated in place.
- The e-Gov law scripts, which read the Japanese law API:
  - `law_number` builds a law name → law number dictionary by zipping two
    lists, memoises it per category, and looks up the names that contain a
    keyword. Module `LawNumber`; the memo is an explicit map that is passed in
    and returned.
  - `law_contents` collects the stripped, non-empty texts of a law, cuts them
    at the first "第五十六条" (Article 56), keeps the sentences ending in "。",
    joins them, deletes 「 and 」, and deletes every remark matched by the
    pattern `（[^（|^）]*）` in one left-to-right pass. Module `LawContents`.
  - `LawLoader` does the same through an object. It holds the dictionary of
    one category and a one-entry cache of law contents (`content_dict`).
    Module `LawAll`, with the loader as a class whose cache field its methods
    reassign.

Module `Builtins` holds the few Python built-ins the scripts rely on:
- exceptions, as a `Result` error;
- `None`, as `Option`;
- list indexing with negative indices;
- `str.isspace`, `str.strip` and `str.endswith`;
- the substring test `needle in haystack`.

Module `EGov` describes the server. A response is read as the sequence of its
XML elements in the order `root.iter()` visits them, each element a tag and an
optional text. The two endpoints (`lawlists/{category}` and
`lawdata/{number}`) are fixed functions held in an `Api` value.

In the pattern `（[^（|^）]*）`, `|` and `^` are ordinary members of the negated
character class. So a parenthesised remark containing either of them is kept
(`LawContents.DeleteRemarksKeepsBar`). Nested parentheses lose only their
innermost group (`LawContents.DeleteRemarksNested`).

## Model

| member | source | states |
|---|---|---|
| Builtins.ResolveIndex | python/01_italable_class/iter_advanced.py:74 | `units[num]` addresses a unit exactly when `-len <= num < len`; the position is `num`, or `num + len` for a negative `num` |
| Builtins.StripStart | python/03_egov/law_contents.py:27 | the leading characters it skips are all whitespace, and the next one is not |
| Builtins.StripEnd | python/03_egov/law_contents.py:27 | the trailing characters it skips are all whitespace, and the one before them is not |
| Builtins.Strip | python/03_egov/law_contents.py:27 | `str.strip()` returns a contiguous slice with no whitespace at either end, and everything it removed is whitespace |
| Builtins.StripStripped | python/03_egov/law_contents.py:27 | stripping a string with no whitespace at its ends returns it unchanged |
| Builtins.StripIdempotent | python/03_egov/law_contents.py:27 | stripping twice is stripping once |
| Builtins.ContainsIffOccurs | python/03_egov/law_number.py:49 | the left-to-right scan for `keyword in name` succeeds exactly when the keyword occurs as a slice of the name |
| Builtins.ContainsEmpty | python/03_egov/law_all.py:65 | the empty keyword is in every name |
| Builtins.ContainsChar | python/01_italable_class/iter_minimum.py:21 | `"a" in v` holds exactly when the character occurs in `v` |
| Builtins.ContainsTransitive | python/03_egov/law_number.py:49 | a string inside a string inside a name is inside the name |
| OrdinalFunc.Decimal | python/02_n-th_string/ordinal_func.py:36 | `f"{num}"` is a non-empty digit string with no leading zero whose last digit is `num % 10` |
| OrdinalFunc.DecimalRoundTrip | python/02_n-th_string/ordinal_func.py:36 | reading the decimal notation back gives the number |
| OrdinalFunc.DecimalInjective | python/02_n-th_string/ordinal_func.py:36 | distinct numbers print differently |
| OrdinalFunc.LeadingDigitPositive | python/02_n-th_string/ordinal_func.py:36 | a digit string whose first digit is not zero denotes a positive number |
| OrdinalFunc.DecimalOfValue | python/02_n-th_string/ordinal_func.py:36 | a digit string without leading zeros is exactly what `f"{num}"` prints for the number it denotes |
| OrdinalFunc.Suffix | python/02_n-th_string/ordinal_func.py:26-29 | the suffix is always one of "st", "nd", "rd", "th" |
| OrdinalFunc.LastTwoDigits | python/02_n-th_string/ordinal_func.py:28 | the tens digit `(num // 10) % 10` and the last digit are those of `num % 100` |
| OrdinalFunc.SuffixByLastTwoDigits | python/02_n-th_string/ordinal_func.py:28-29 | the suffix depends only on `num % 100` |
| OrdinalFunc.SuffixRule | python/02_n-th_string/ordinal_func.py:26-29 | the suffix is one of st/nd/rd/th; it is "th" for 10–19 modulo 100, and otherwise st/nd/rd for last digit 1/2/3 and "th" for the rest |
| OrdinalFunc.Int2Ordinal | python/02_n-th_string/ordinal_func.py:7-36 | TypeError for a non-integer, ValueError for a negative integer, otherwise digits followed by a two-letter suffix |
| OrdinalFunc.OrdinalRoundTrip | python/02_n-th_string/ordinal_func.py:36 | every natural number (zero included) gets a label, and the label parses back to the number (outside the limit on printed digits listed under Left out) |
| OrdinalFunc.ParseOrdinal | python/02_n-th_string/ordinal_func.py:36 | whatever label it accepts is exactly the label `int2ordinal` prints for the number it returns (the converse of `OrdinalFunc.OrdinalRoundTrip`) |
| OrdinalFunc.OrdinalInjective | python/02_n-th_string/ordinal_func.py:36 | different numbers get different labels |
| OrdinalFunc.DemoSmallLabels | python/02_n-th_string/ordinal_func.py:40-44 | 0–4 give "0th", "1st", "2nd", "3rd", "4th" |
| OrdinalFunc.DemoTeenLabels | python/02_n-th_string/ordinal_func.py:45-47 | 11 and 111 give "11th" and "111th" |
| OrdinalFunc.DemoTwentyFirstLabels | python/02_n-th_string/ordinal_func.py:46-48 | 21 and 121 give "21st" and "121st" |
| IterMinimum.Iter | python/01_italable_class/iter_minimum.py:15-16 | each `iter()` starts a new generator at the first stored value |
| IterMinimum.Next | python/01_italable_class/iter_minimum.py:16 | `next` yields the value at the generator's position and advances it by one, or stops at the end of the list |
| IterMinimum.Drain | python/01_italable_class/iter_minimum.py:16 | running a generator to StopIteration yields as many values as remain from its position |
| IterMinimum.DrainYieldsRest | python/01_italable_class/iter_minimum.py:16 | a generator yields exactly the rest of the list from its position, in order |
| IterMinimum.IterationYieldsValues | python/01_italable_class/iter_minimum.py:12-16 | iteration yields exactly the constructor's list, as many values as it has, and restarts from the first value however far an earlier generator got |
| IterMinimum.Filter | python/01_italable_class/iter_minimum.py:21 | the comprehension keeps exactly the values that contain the keyword, and no more values than it was given |
| IterMinimum.FilterAppend | python/01_italable_class/iter_minimum.py:21 | the comprehension keeps order and repetitions: a concatenation filters to the filtered parts in turn |
| IterMinimum.FilterOne | python/01_italable_class/iter_minimum.py:21 | one string is kept exactly when it contains the keyword |
| IterMinimum.SelectContaining | python/01_italable_class/iter_minimum.py:20-21 | iterating the object and filtering keeps exactly the stored strings that contain the keyword |
| IterMinimum.FilterNone | python/01_italable_class/iter_minimum.py:21 | values none of which contains the keyword filter to nothing |
| IterMinimum.DemoFilter | python/01_italable_class/iter_minimum.py:20-21 | filtering ["a","ab","abc","bb","cc"] for "a" gives ["a","ab","abc"] |
| IterMinimum.DemoSelect | python/01_italable_class/iter_minimum.py:20-21 | the demonstration, iteration included, prints ["a","ab","abc"] |
| IterAdvanced.Unit.constructor | python/01_italable_class/iter_advanced.py:10-18 | a new unit holds the given number and is truthy (`__bool__` returns the enabled flag) |
| IterAdvanced.Unit.Disable | python/01_italable_class/iter_advanced.py:27-31 | the unit becomes falsy, keeps its value, and a second disable changes nothing |
| IterAdvanced.MakeUnit | python/01_italable_class/iter_advanced.py:10-15 | `Unit(value)` raises TypeError exactly when the value is neither int nor float; otherwise a new enabled unit holds the value |
| IterAdvanced.EnabledValues | python/01_italable_class/iter_advanced.py:83 | `[unit.value for unit in series if unit]` has at most one value per unit, and a value is in it exactly when some enabled unit holds it; a disabled unit contributes nothing |
| IterAdvanced.EnabledValuesAppend | python/01_italable_class/iter_advanced.py:83 | the comprehension keeps the units' order: over two lists one after the other it gives the values of the first, then those of the second |
| IterAdvanced.EnabledValuesAllEnabled | python/01_italable_class/iter_advanced.py:83 | when every unit is enabled it gives every unit's value, position by position |
| IterAdvanced.Series.constructor | python/01_italable_class/iter_advanced.py:39-40 | a new series has no units |
| IterAdvanced.Series.Iter | python/01_italable_class/iter_advanced.py:42-43 | `iter(series)` is a generator that yields exactly the units, in insertion order |
| IterAdvanced.Series.Add | python/01_italable_class/iter_advanced.py:45-57 | a unit is appended at the end with the earlier units in place; anything else raises TypeError and leaves the series unchanged |
| IterAdvanced.Series.Disable | python/01_italable_class/iter_advanced.py:59-76 | TypeError for a non-int; IndexError outside `[-len, len)`, with no flag changed; otherwise the unit at the Python index is disabled, every other unit keeps its flag, and the list is unchanged |
| IterAdvanced.AddRange | python/01_italable_class/iter_advanced.py:82 | adding `Unit(i)` for `i` in `range(n)` gives n distinct new enabled units with values 0..n-1, whose enabled values are 0..n-1 |
| IterAdvanced.DisabledOne | python/01_italable_class/iter_advanced.py:83 | a single disabled unit gives no value, whatever it holds |
| IterAdvanced.EnabledValuesOfDemo | python/01_italable_class/iter_advanced.py:83-87 | with units 3 and 5 disabled, the enabled values of 0..9 are [0,1,2,4,6,7,8,9] |
| IterAdvanced.Demo | python/01_italable_class/iter_advanced.py:79-87 | the demonstration lists 0..9, then [0,1,2,4,6,7,8,9] after disabling indices 3 and 5 |
| LawContents.StrippedTexts | python/03_egov/law_contents.py:27 | the result holds exactly the stripped texts of the elements whose text is non-empty, each stripped, at most one per element |
| LawContents.StrippedTextsAppend | python/03_egov/law_contents.py:27 | texts keep document order: those of a concatenation are those of each part in turn |
| LawContents.StrippedTextsOne | python/03_egov/law_contents.py:27 | one element contributes its stripped text when its text is non-empty, and nothing otherwise |
| LawContents.NonEmpty | python/03_egov/law_contents.py:28 | keeps exactly the non-empty texts |
| LawContents.NonEmptyAppend | python/03_egov/law_contents.py:28 | the filter keeps the order of the texts |
| LawContents.RawContents | python/03_egov/law_contents.py:27-28 | every text of `get_raw` is non-empty and stripped, at most one per element |
| LawContents.RawContentsAppend | python/03_egov/law_contents.py:27-28 | `get_raw` keeps document order |
| LawContents.RawContentsOne | python/03_egov/law_contents.py:27-28 | one element contributes exactly its stripped text, unless it has no text or only whitespace; with `RawContentsAppend` this fixes `get_raw` for every document |
| LawContents.RawContentsOfCleanElement | python/03_egov/law_contents.py:27-28 | an element whose text is already clean contributes exactly that text |
| LawContents.RawContentsIdempotent | python/03_egov/law_contents.py:27-28 | feeding clean texts back through `get_raw` returns them unchanged |
| LawContents.IndexOf | python/03_egov/law_contents.py:48 | `list.index` finds the first position of the element, and fails exactly when it is absent |
| LawContents.BeforeArticle56 | python/03_egov/law_contents.py:48 | ValueError exactly when "第五十六条" is absent; otherwise the strict prefix before its first occurrence |
| LawContents.BeforeArticle56IgnoresTail | python/03_egov/law_contents.py:48 | everything from the first "第五十六条" on is dropped, however it continues |
| LawContents.Sentences | python/03_egov/law_all.py:99 | keeps exactly the elements that end with "。" |
| LawContents.SentencesNone | python/03_egov/law_all.py:99 | elements none of which ends with "。" leave nothing |
| LawContents.SentencesAppend | python/03_egov/law_all.py:99 | the kept sentences stay in order |
| LawContents.Join | python/03_egov/law_all.py:100 | joining no sentences gives the empty string, and joining one gives that sentence |
| LawContents.JoinAppend | python/03_egov/law_all.py:100 | joining is concatenation: joining two lists joined end to end joins each |
| LawContents.JoinChars | python/03_egov/law_all.py:100 | the joined text holds exactly the characters of the pieces |
| LawContents.DeleteKagikakko | python/03_egov/law_all.py:101 | no 「 or 」 is left, and every other character keeps its count |
| LawContents.DeleteKagikakkoAppend | python/03_egov/law_all.py:101 | the deletion works character by character, keeping order |
| LawContents.DeleteKagikakkoKeepsOrder | python/03_egov/law_all.py:101 | the characters left by the deletion are a subsequence of the input: they keep their order |
| LawContents.DeleteKagikakkoWithout | python/03_egov/law_all.py:101 | text without 「 or 」 is left unchanged |
| LawContents.RemarkRun | python/03_egov/law_all.py:102 | the run `[^（|^）]*` covers only allowed characters and stops at the first other one |
| LawContents.RemarkAt | python/03_egov/law_all.py:102 | a match at the start is at least two characters long and fits in the string |
| LawContents.RemarkAtMatches | python/03_egov/law_all.py:102 | the pattern matches with length m exactly when the first m characters are `（`, allowed characters, `）` |
| LawContents.DeleteRemarks | python/03_egov/law_all.py:102 | the substitution never lengthens the text |
| LawContents.DeleteRemarksOnlyDeletes | python/03_egov/law_all.py:102 | every character the substitution leaves was in the input, no more often: a sub-multiset |
| LawContents.DeleteRemarksKeepsOrder | python/03_egov/law_all.py:102 | the substitution only deletes: its result is a subsequence of the input, so what remains keeps its order |
| LawContents.DeleteRemarksWithoutOpening | python/03_egov/law_all.py:102 | a text without `（` is left unchanged |
| LawContents.DeleteRemarksPlainPrefix | python/03_egov/law_all.py:102 | a prefix without `（` is copied unchanged and the pass continues after it |
| LawContents.DeleteRemarksFirst | python/03_egov/law_all.py:102 | the first remark after plain text is deleted whole |
| LawContents.RemarkRunOf | python/03_egov/law_all.py:102 | the run stops exactly at the first character not allowed inside a remark |
| LawContents.NoRemarkAt | python/03_egov/law_all.py:102 | a `（` whose run is cut short by anything but `）` opens no remark |
| LawContents.RemarkAtSlice | python/03_egov/law_all.py:102 | a `（…）` with allowed characters inside matches, at its own length |
| LawContents.DeleteRemarksGroupThenPlain | python/03_egov/law_all.py:102 | a remark followed by plain text leaves only the plain text |
| LawContents.DeleteRemarksInterrupted | python/03_egov/law_all.py:102 | a `（` interrupted by another `（` is kept with the text up to the second one |
| LawContents.DeleteRemarksNested | python/03_egov/law_contents.py:56 | in a nested remark only the innermost group is deleted, in one pass |
| LawContents.DeleteRemarksKeepsBar | python/03_egov/law_all.py:102 | parentheses with a `|` or `^` inside are not deleted |
| LawContents.PreProcess | python/03_egov/law_all.py:99-102 | `pre_process` leaves no 「 or 」, and its result is a subsequence of the joined sentences (characters only deleted, order kept), so a sub-multiset and never longer |
| LawContents.PreProcessWithoutSentences | python/03_egov/law_all.py:99-100 | elements that are not sentences contribute nothing |
| LawContents.PreProcessKeepsCleanSentences | python/03_egov/law_all.py:99-102 | when no element holds 「, 」 or （, `pre_process` returns exactly the sentences joined in order |
| LawContents.PreprocessGcp | python/03_egov/law_contents.py:31-56 | ValueError exactly when there is no "第五十六条"; otherwise a text without 「 or 」 |
| LawContents.PreprocessGcpOfHead | python/03_egov/law_contents.py:48-56 | `preprocess_gcp` is `pre_process` applied to the elements before the first "第五十六条" |
| LawNumber.TextsTagged | python/03_egov/law_number.py:31-32 | the names (or numbers) are exactly the texts of the elements with that tag, at most one per element |
| LawNumber.TextsTaggedAppend | python/03_egov/law_number.py:31-32 | they are collected in document order |
| LawNumber.ZipPrefix | python/03_egov/law_number.py:33 | the dictionary of the first n pairs has exactly the first n names as keys |
| LawNumber.ZipToDict | python/03_egov/law_number.py:33 | the keys are exactly the names up to the length of the shorter list |
| LawNumber.ZipPrefixLastWins | python/03_egov/law_number.py:33 | within the first n pairs a name maps to the number of its last occurrence |
| LawNumber.ZipLastWins | python/03_egov/law_number.py:33 | the i-th name is paired with the i-th number, and a repeated name keeps its last number |
| LawNumber.ZipIgnoresExtraNames | python/03_egov/law_number.py:33 | names beyond the numbers list are dropped by `zip` |
| LawNumber.LawDictOf | python/03_egov/law_all.py:49-51 | every key of the dictionary is the text of a LawName element, and there are no more entries than elements |
| LawNumber.FilterByKeyword | python/03_egov/law_number.py:49 | exactly the entries whose name contains the keyword, with their numbers; TypeError when a name is None |
| LawNumber.FilterSubMap | python/03_egov/law_number.py:48-49 | the result is a sub-dictionary of the law dictionary |
| LawNumber.FilterEmptyKeyword | python/03_egov/law_number.py:49 | the empty keyword returns the whole dictionary |
| LawNumber.FilterNoMatch | python/03_egov/law_number.py:49 | a keyword in no name gives the empty dictionary |
| LawNumber.FilterNarrows | python/03_egov/law_number.py:49 | a keyword containing another selects a subset of the other's laws |
| LawNumber.GetLawDict | python/03_egov/law_number.py:12-33 | the memoised `get_law_dict` returns what a fetch returns; it fetches exactly when the category is not in the memo and then records it, and the memo stays coherent |
| LawNumber.GetLawDictTwice | python/03_egov/law_number.py:12-13 | a repeated call does not fetch and returns the same dictionary |
| LawNumber.GetLawNumber | python/03_egov/law_number.py:36-49 | the keyword search over the category's dictionary, a sub-dictionary of it, with the memo kept coherent |
| LawAll.GcpNameHasKeyword | python/03_egov/law_all.py:119-120 | the ordinance's name contains the search keyword, so the search keeps it |
| LawAll.GcpNumber | python/03_egov/law_all.py:119-120 | TypeError exactly when a law name is None, KeyError exactly when the ordinance is missing, otherwise its number |
| LawAll.GcpOf | python/03_egov/law_all.py:104-123 | the number's error passes through; otherwise ValueError exactly when the contents have no "第五十六条", and the text has no 「 or 」 |
| LawAll.GcpOfIsPreprocessGcp | python/03_egov/law_all.py:121-123 | `gcp` equals `preprocess_gcp` of the same fetched contents |
| LawAll.GcpOfHead | python/03_egov/law_all.py:122-123 | `gcp` is `pre_process` of the contents before the first "第五十六条" |
| LawAll.LawLoader.constructor | python/03_egov/law_all.py:19-21 | the loader holds the category's zipped dictionary and an empty cache |
| LawAll.LawLoader.GetLawNumber | python/03_egov/law_all.py:65 | exactly the loader's entries whose name contains the keyword, numbers unchanged, a sub-dictionary; TypeError when a name is None |
| LawAll.LawLoader.GetRaw | python/03_egov/law_all.py:67-82 | returns the stripped non-empty texts of the law; a hit leaves the cache and does not fetch; after a miss the cache holds only this law; the cache stays coherent with the server |
| LawAll.LawLoader.Gcp | python/03_egov/law_all.py:104-123 | returns `GcpOf` of the loader's dictionary; the cache is untouched when the lookup fails and holds the ordinance otherwise |

## Left out

- The covsirphy scripts: they drive an external library whose code is not part of this model.
- HTTP and XML parsing (`requests.get`, `ElementTree.fromstring`, `_get_xml`) are not modelled. The server is a fixed function from request to element sequence, so network failures, malformed XML and answers that change between calls are not modelled.
- The URL prefixes are implicit in the two `Api` endpoints. Only the category and the rendered number are passed.
- The `main()` functions are not modelled: `print`/`pprint` output (including the `pprint` in `get_law_dict`) and JSON/text file writing.
- Default arguments (`category=1`) are not modelled; callers pass the category.
- The unused `category` parameter of `LawLoader.get_law_number` is not modelled, because the method ignores it.
- LawNumber.GetLawDict: the memo is unbounded. `lru_cache`'s 128-entry eviction is not modelled; an evicted category would be fetched again, which gives the same dictionary from a fixed server.
- The `lru_cache` on `law_contents.get_raw` is not modelled: `LawContents.RawContents` is a pure function of the fetched elements, so a memo cannot change its result.
- LawAll.LawLoader.GetRaw returns a value, not a Python reference. Aliasing is not modelled: a caller mutating the list `get_raw` returns would also change the cached copy.
- `isinstance` is not modelled on arbitrary objects. It becomes a tagged value (`Value`, `UnitArg`); that `bool` counts as `int` in Python is not modelled.
- Floats are carried as reals and never inspected.
- Iterating a `Series` yields its unit list as it stands. Lazy generators seeing units added during iteration are not modelled.
- Only the one pattern `（[^（|^）]*）` and the one `str.translate` table are modelled, as hand-written scans; general regex and translate semantics are not.
- OrdinalFunc.Int2Ordinal: CPython's limit on converting integers to decimal text (by default 4300 digits, `sys.int_info.default_max_str_digits`) is not modelled. Beyond it `f"{num}"` raises ValueError, where the model returns a label for every natural number; the limit is a property of the interpreter version, not of the script.
