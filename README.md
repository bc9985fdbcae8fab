# BigCty importer — a verified Dafny model

`notctyparser/bigcty.py` holds the `BigCty` class of ctyparser. It is a read-only
mapping from amateur-radio callsign prefixes to records of the country (DXCC
entity) they belong to: CQ and ITU zones, continent, latitude, longitude, UTC
offset, the primary prefix and whether the prefix is an exact callsign. Its
core is `import_dat`, which reads the `CTY.DAT` text format line by line:

- a **header line** (first character a letter) is split at `:` into eight
  fields and makes the record of a new primary prefix;
- a **continuation line** (first character whitespace) lists override tokens
  separated by `,`. Each token copies the primary's record, replaces the
  fields whose bracketed groups it carries, and stores the copy under the
  token's prefix.

This project models that importer, the two regular expressions it relies on,
`formatted_version`, the mapping wrappers, and the version/data split of
`load` and `dump`. Each piece is proved against a specification.

Modules, one per file:

- `Wrappers` (`wrappers.dfy`): `Option`, `Result` and the Python exceptions
  that the modelled code raises (`IndexError`, `ValueError`, `KeyError`,
  `TypeError`).
- `Strings` (`strings.dfy`): `isspace`/`isalpha`, `strip`/`lstrip`/`rstrip`,
  `split`/`join`, and `readline` as the end of the line starting at a
  position.
- `Numbers` (`numbers.dfy`): `int()` and `float()` on text. A float is kept
  opaque, as its sign and the text of its magnitude, with `Neg` for `-1 * x`.
- `Grammar` (`grammar.dfy`): `VER(\d{8})` searched leftmost, and the override
  grammar `regex_dat` as a hand-written matcher. It covers the `re.search`
  semantics (leftmost start, no end anchor) and the unescaped `.` of the
  `long` group. `Render` writes a token back.
- `Dates` (`dates.dfy`): `strptime(v, "%Y%m%d")` with the month and day
  alternatives of Python's `_strptime` regex, `strftime("%Y-%m-%d")`, and
  `formatted_version`.
- `CtyData` (`ctydata.dfy`): the `Record`, and the header, token and line steps
  as functions. `Import(text)` is the whole import as a function of the file
  text, with the lemmas about it.
- `Persist` (`persist.dfy`): `load` and `dump` over the decoded JSON document.
- `Cty` (`cty.dfy`): the class `BigCty`, with `data` and `version` fields.
  `ImportDat` follows the source's two loops imperatively and is proved to
  compute exactly `CtyData.Import`.

The model follows the code as written, including these behaviours:

- A token is looked up *as written* (`"=K1ABC(5)"`), but the copy is stored
  under the extracted prefix. A token can therefore overwrite an existing key,
  the primary's own included.
- A line that starts with neither a letter nor whitespace is skipped.
- The loop ends only at a line that is empty after cleaning, which happens only
  at the end of the text. `readline` keeps the `"\n"`, so a blank line inside
  the file is a continuation line with one empty token.
- A continuation line before any header raises KeyError, because the
  primary's record is copied before the token is matched.
- A failing header raises IndexError or ValueError. The version has already
  been stored by then, while the data keeps its old value.
- `long` accepts any separator character, so `A<1/2x3>` matches. `float` then
  refuses the longitude, and the whole import aborts with ValueError.

## Model

| member | source | states |
|---|---|---|
| Grammar.VersionFrom | notctyparser/bigcty.py:103-104 | the first position at or after `i` where `VER` and eight digits start, with no such position before it; `None` when there is none |
| Grammar.ExtractVersion | notctyparser/bigcty.py:103-104 | the version is `""` exactly when no `VER` followed by eight digits occurs; otherwise it is eight digits, namely the ones after the leftmost such marker |
| Grammar.Number | notctyparser/bigcty.py:48 | the `[+-]?\d+(?:\.\d+)?` match at the start of the text is a number text, and the match and the rest make up the input |
| Grammar.LongNumber | notctyparser/bigcty.py:50 | the `long` match (unescaped `.`) has the wildcard number shape, and what follows it starts with the closing `>` |
| Grammar.Enclosed | notctyparser/bigcty.py:45-46 | a bracketed group is non-empty, all of its class, and sits between its brackets at the start of the text |
| Grammar.LatLong | notctyparser/bigcty.py:47-51 | `<lat/long>` matches a number and a wildcard number, and the text is exactly `<`, lat, `/`, long, `>` and the rest |
| Grammar.TzGroup | notctyparser/bigcty.py:53 | `~tz~` matches a number text, and the text is exactly `~`, tz, `~` and the rest |
| Grammar.MatchHere | notctyparser/bigcty.py:43-55 | the grammar matches at the start of the text exactly when it starts with a prefix character, or with `=` and then one; the prefix is the maximal run there, and every group is well formed |
| Grammar.MatchGroups | notctyparser/bigcty.py:45-53 | the optional groups after a prefix always match (possibly empty), and each one that matched is well formed |
| Grammar.Search | notctyparser/bigcty.py:148 | `re.search` finds no match exactly when the token holds no prefix character; otherwise the prefix found is the first maximal run of them, and the groups are well formed |
| Grammar.SearchRender | notctyparser/bigcty.py:43-55 | round trip: searching the token rendered from any well-formed match gives that match back, and the token starts with `=` exactly when rendered as an exact match |
| Grammar.MatchGroupsOf | notctyparser/bigcty.py:45-53 | round trip of the optional groups: matching the rendered groups gives back every group, present or absent |
| Grammar.NumberOf | notctyparser/bigcty.py:48 | the number matcher gives back any number text followed by a delimiter |
| Grammar.LongNumberOf | notctyparser/bigcty.py:50 | the `long` matcher gives back any wildcard number followed by `>` and a non-digit |
| Grammar.LatLongOf | notctyparser/bigcty.py:47-51 | the `<lat/long>` matcher gives back both texts of any written `<lat/long>` |
| Numbers.ParseInt | notctyparser/bigcty.py:126-127 | `int()` accepts only text with something left after stripping whitespace, and gives a negative value only after a leading `-`; `Numbers.ParseIntAccepts` states which texts it accepts |
| Numbers.ParseFloat | notctyparser/bigcty.py:129-131 | `float()` accepts only text with a non-empty magnitude left after stripping whitespace, and the value is negative exactly when that text starts with `-`; `Numbers.ParseFloatShape` states what the accepted texts are made of |
| Numbers.ParseIntAccepts | notctyparser/bigcty.py:126-127 | `int()` accepts a text exactly when, with surrounding whitespace and one sign removed, the rest is a digit group: a digit first, then only digits and underscores, no `_` doubled or last |
| Numbers.ParseIntLetter | notctyparser/bigcty.py:126-127 | a letter anywhere in the text makes `int()` refuse it |
| Numbers.BodyChars | notctyparser/bigcty.py:126-131 | every character of a field is whitespace, a sign, or a character of the text `int()`/`float()` read after stripping and removing the sign |
| Numbers.ParseFloatShape | notctyparser/bigcty.py:129-131 | what `float()` accepts is, after whitespace and sign, a special value spelt in letters only, or a text with a digit and only digits, `.`, `_`, `e`, `E`, `+` and `-` |
| Numbers.ParseFloatLetter | notctyparser/bigcty.py:129-131 | a text with a digit and a letter other than `e`/`E` is refused by `float()` |
| Numbers.IntRoundTrip | notctyparser/bigcty.py:126-127 | `int` reads back every integer written in decimal, negative ones included |
| Numbers.ParseDigits | notctyparser/bigcty.py:151-154 | `int` of a `\d+` group is its decimal value |
| Numbers.NumberTextParses | notctyparser/bigcty.py:156 | `float` accepts every `lat` and `tz` text of the grammar, keeping its sign and its digits |
| Numbers.WildNumberParses | notctyparser/bigcty.py:157 | `float` accepts a `long` text exactly when its separator, if any, is a point, an underscore or an exponent letter |
| Numbers.DecimalWithSeparator | notctyparser/bigcty.py:50 | two digit runs around one non-digit form a float literal exactly when the separator is `.`, `_`, `e` or `E` |
| Numbers.Neg | notctyparser/bigcty.py:131 | `-1 * x` flips the sign and keeps the magnitude |
| CtyData.HeaderValueError | notctyparser/bigcty.py:124-135 | a header line with its eight fields raises ValueError exactly when `int()` refuses a zone or `float()` refuses a coordinate or the offset |
| CtyData.HeaderNonNumeric | notctyparser/bigcty.py:126-131 | a header whose CQ or ITU zone holds a letter, or whose latitude, longitude or offset holds a digit and a letter other than `e`/`E`, raises ValueError |
| CtyData.CleanLine | notctyparser/bigcty.py:111-113 | the cleaned line is no longer than the line read, and neither starts nor ends with `:`; `CtyData.CleanLineCuts` states which part of the line it is |
| CtyData.CleanLineCuts | notctyparser/bigcty.py:111-113 | the line is `t` followed by a run of `\r`, and `t` is a run of `:`, the cleaned line, and another run of `:`, the first run being the one `lstrip(":")` drops from `t` |
| CtyData.Segments | notctyparser/bigcty.py:119 | a header line has one field per `:`-separated part, so always at least one; `CtyData.HeaderFields` states that the fields come back stripped |
| CtyData.ApplyMatch | notctyparser/bigcty.py:151-163 | the overrides of one token on the primary's copy raise only ValueError, keep `entity`, `len` and `primary_pfx`, and set `exact_match` for a token starting with `=` |
| CtyData.TokenStep | notctyparser/bigcty.py:144-165 | one token keeps `last` and every key; it can raise only KeyError, when there is no primary yet, or else ValueError |
| CtyData.TokensStep | notctyparser/bigcty.py:143-165 | the tokens of a line, in order, keep `last` and every key; they raise KeyError exactly when there is no primary yet, and otherwise only ValueError |
| CtyData.LineStep | notctyparser/bigcty.py:116-165 | a header line makes its key the primary, which is then a key, and raises only IndexError or ValueError; any other line keeps `last` and can raise only KeyError, when there is no primary yet, or else ValueError; no line removes a key |
| CtyData.ImportFrom | notctyparser/bigcty.py:110-165 | the rest of the file removes no key and raises only IndexError, ValueError or KeyError |
| CtyData.Import | notctyparser/bigcty.py:100-165 | the import raises only IndexError, ValueError or KeyError, and an empty file gives the empty dictionary |
| CtyData.NegNeg | notctyparser/bigcty.py:161 | negating twice gives the value back |
| CtyData.HeaderRecord | notctyparser/bigcty.py:117-137 | IndexError exactly when there are fewer than eight fields or the eighth is empty, and otherwise ValueError on a refused number. On success the record is keyed by field 8 without a leading `*`, "(not DXCC)" is appended for `*`, `primary_pfx` is the key, `len` is its length, `exact_match` is false, `cq`/`itu` are `int` of fields 2/3, `lat`/`long` are `float` of fields 5/6, and `tz` is the negation of `float` of field 7 |
| CtyData.HeaderRoundTrip | notctyparser/bigcty.py:119-135 | reading back a header line written from its fields gives exactly the key and record those fields describe, for the `*` and the plain case |
| CtyData.HeaderFields | notctyparser/bigcty.py:119 | splitting at `:` and stripping gives back the fields a header line was written from |
| CtyData.OverrideTokens | notctyparser/bigcty.py:141 | a continuation line has at least one token, no token holds a `,`, and the tokens joined by `,` give back the line stripped of whitespace and then of trailing `;` and trailing `,` |
| CtyData.HeaderLineStores | notctyparser/bigcty.py:117-137 | a header line stores one record under its key and makes that key `last`; every other key keeps its record |
| CtyData.ApplyMatchSpec | notctyparser/bigcty.py:146-163 | an override fails exactly on a `long` whose separator `float` refuses, with ValueError. Otherwise the copy equals the primary's record except that `cq`, `itu` and `continent` are replaced when matched, `lat` and `long` together, `tz` by its negation, and `exact_match` is set by `=`; `entity`, `len` and `primary_pfx` never change |
| CtyData.IntFieldOf | notctyparser/bigcty.py:151-154 | a matched zone group always converts, and an unmatched one keeps the copied value |
| CtyData.LatFieldOf | notctyparser/bigcty.py:155-156 | a matched latitude always converts, and an unmatched one keeps the copied value |
| CtyData.LongFieldOf | notctyparser/bigcty.py:155-157 | a matched longitude converts exactly when its separator is float-legal, and an unmatched one keeps the copied value |
| CtyData.TzFieldOf | notctyparser/bigcty.py:160-161 | a matched offset always converts and is negated, and an unmatched one keeps the copied value |
| CtyData.TokenLeavesDict | notctyparser/bigcty.py:144-150 | a token that is already a key as written, or one the grammar does not match, leaves the dictionary and `last` unchanged |
| CtyData.TokenOverrides | notctyparser/bigcty.py:144-165 | a new matched token after a header raises, always ValueError, exactly when its `long` has a separator `float` refuses; otherwise `last` is kept and the record stored under the extracted prefix is the primary's with the matched fields replaced (`tz` negated, `exact_match` set by `=`), and no other key changes |
| CtyData.RenderedToken | notctyparser/bigcty.py:143-165 | any well-formed token that is not yet a key stores under its prefix a record satisfying the override description, and no other key changes |
| CtyData.LongSeparatorAborts | notctyparser/bigcty.py:155-157 | a token whose `long` has a separator other than `.`, `_`, `e` or `E` is matched and makes the import raise ValueError |
| CtyData.PrimaryOverwritten | notctyparser/bigcty.py:144-165 | `P(n)` on P's own line overwrites P's record, and a later token copies the overwritten record |
| CtyData.CqTokenStep | notctyparser/bigcty.py:144-165 | a `prefix(cq)` token for the primary itself replaces the primary's CQ zone |
| CtyData.PlainTokenStep | notctyparser/bigcty.py:144-165 | a bare prefix token stores an unchanged copy of the primary's record |
| CtyData.NewlineSurvives | notctyparser/bigcty.py:111-113 | a line that ends in a newline is not empty after cleaning |
| CtyData.EmptyOnlyAtEnd | notctyparser/bigcty.py:110-115 | the loop stops only at the end of the text |
| CtyData.BlankLineSkipped | notctyparser/bigcty.py:110-150 | a blank line after a header is read as a continuation line and changes nothing |
| CtyData.BlankLineStep | notctyparser/bigcty.py:140-150 | a lone newline is a continuation line whose one empty token changes nothing |
| CtyData.BlankTokens | notctyparser/bigcty.py:141 | a lone newline splits into the one empty token |
| CtyData.EmptyTokenStep | notctyparser/bigcty.py:144-150 | the empty token changes nothing once there is a primary |
| CtyData.UnclassifiedSkipped | notctyparser/bigcty.py:117-140 | a line starting with neither a letter nor whitespace is skipped |
| CtyData.ContinuationBeforeHeader | notctyparser/bigcty.py:140-146 | a continuation line before any header makes the import raise KeyError |
| CtyData.TokensStepConsistent | notctyparser/bigcty.py:143-165 | the tokens of a line keep every record linked to a primary that is a key and remove no key |
| CtyData.LineStepConsistent | notctyparser/bigcty.py:117-165 | every line keeps every record linked to a primary that is a key and removes no key |
| CtyData.ImportConsistent | notctyparser/bigcty.py:110-165 | the import removes no key, and every record it builds names a `primary_pfx` that is a key, with `len` its length |
| CtyData.ImportWellLinked | notctyparser/bigcty.py:91-166 | every record of a successful import names a `primary_pfx` that is a key, with `len` its length |
| Strings.LStrip | notctyparser/bigcty.py:141 | `lstrip` removes exactly the leading run of the class: the result is a suffix of the input that does not start with a character of the class, and every dropped character is of the class |
| Strings.RStrip | notctyparser/bigcty.py:112 | `rstrip` removes exactly the trailing run of the class: the result is a prefix of the input that does not end with a character of the class, and every dropped character is of the class |
| Strings.IsSpace | notctyparser/bigcty.py:140 | `isspace`: whitespace is never a digit, nor one of the separators `:`, `,` and `;` |
| Strings.IsAlpha | notctyparser/bigcty.py:117 | `isalpha` (ASCII letters): a letter is never whitespace, so a header line is never also a continuation line |
| Strings.StartsWith | notctyparser/bigcty.py:162 | `startswith` holds exactly when the text is the prefix followed by the rest of the text |
| Strings.Split | notctyparser/bigcty.py:119 | `split` gives at least one part, no part holds the separator, and joining the parts with it gives the text back |
| Strings.Strip | notctyparser/bigcty.py:141 | `strip` gives a text no longer than its input with no character of the class at either end, and leaves a text without such ends unchanged; `Strings.StripCuts` states which part of the input it is |
| Strings.StripCuts | notctyparser/bigcty.py:141 | the input is a run of the class, the stripped text, and another run of the class, the first run being the one `lstrip` drops |
| Strings.SplitJoin | notctyparser/bigcty.py:119 | `split` undoes `join` when no part holds the separator |
| Strings.LineEnd | notctyparser/bigcty.py:111-112 | `readline` returns up to and including the first newline, or the rest of the text |
| Dates.StrpTime | notctyparser/bigcty.py:250 | `strptime` succeeds only on a valid date, and otherwise raises ValueError |
| Dates.StrfTime | notctyparser/bigcty.py:250 | `strftime("%Y-%m-%d")` writes ten characters with dashes at positions 4 and 7 |
| Dates.DaysInMonth | notctyparser/bigcty.py:250 | months have 28 to 31 days, and 29 only in February of a leap year |
| Dates.MonthDayOfValid | notctyparser/bigcty.py:250 | four digits giving a month 1-12 and a day 1-31 are matched as two and two digits |
| Dates.StrpTimeEightDigits | notctyparser/bigcty.py:250 | on eight digits `%Y%m%d` agrees with the fixed 4/2/2 split: it succeeds exactly when that split names a valid date |
| Dates.FormattedVersion | notctyparser/bigcty.py:242-252 | raises TypeError exactly when the version is `None`; otherwise it returns `"0000-00-00"` or a `YYYY-MM-DD`-shaped text |
| Dates.FormattedEightDigits | notctyparser/bigcty.py:242-252 | an eight-digit version formats as its digits with dashes when they name a valid date, leap years included, and as `"0000-00-00"` otherwise |
| Dates.FormattedImportedVersion | notctyparser/bigcty.py:242-252 | an imported version formats as `"0000-00-00"` when it is `""` or names no valid date, and otherwise as its digits with dashes |
| Persist.Dump | notctyparser/bigcty.py:86-87 | the document holds every key of the data plus `"version"`, the version under that key and each record under its own key |
| Persist.Load | notctyparser/bigcty.py:75-76 | the data is every entry except `"version"`, and the version is that entry, or `None` when it is absent |
| Persist.LoadDump | notctyparser/bigcty.py:75-87 | loading what was dumped gives back the version and the data, less any record that was under `"version"` |
| Persist.LoadDumpExact | notctyparser/bigcty.py:75-87 | round trip: load(dump(d, v)) == (d, v) when d has no `"version"` key |
| Persist.DumpLoad | notctyparser/bigcty.py:75-87 | dumping what was loaded gives back a document that had a version |
| Cty.BigCty.constructor | notctyparser/bigcty.py:57-63 | a new object has no records and the version `""` |
| Cty.BigCty.FromDocument | notctyparser/bigcty.py:57-63 | an object built from a document holds what `load` reads from it |
| Cty.BigCty.Load | notctyparser/bigcty.py:65-76 | `load` replaces the data and the version by the document's split |
| Cty.BigCty.Dump | notctyparser/bigcty.py:78-89 | `dump` leaves the object alone; loading its document gives back the data and the version when no record is under `"version"` |
| Cty.BigCty.ImportDat | notctyparser/bigcty.py:91-166 | the version is always the extracted one. The call returns no exception exactly when the import succeeds, and the data is then exactly what `Import` builds; on an exception the data is unchanged |
| Cty.BigCty.ImportLine | notctyparser/bigcty.py:117-165 | the outer loop's body does exactly one line step: header, continuation or skip |
| Cty.BigCty.ImportTokens | notctyparser/bigcty.py:141-165 | the inner loop over a line's tokens does exactly the tokens' steps in order, stopping at the first exception |
| Cty.BigCty.ApplyToken | notctyparser/bigcty.py:144-165 | one new token raises KeyError before any header, is dropped when unmatched, and is otherwise stored overridden under its prefix |
| Cty.BigCty.Overwrite | notctyparser/bigcty.py:146-163 | the in-order field updates on the copy give exactly the override description of `ApplyMatch` |
| Cty.BigCty.Version | notctyparser/bigcty.py:254-261 | the `version` property is the stored version |
| Cty.BigCty.FormattedVersion | notctyparser/bigcty.py:242-252 | raises exactly when the version is `None`; an eight-digit version formats as its digits with dashes when it names a valid date, and as `"0000-00-00"` otherwise |
| Cty.BigCty.Len | notctyparser/bigcty.py:264-265 | `len` is the number of prefixes |
| Cty.BigCty.Get | notctyparser/bigcty.py:267-268 | `cty[key]` is the stored record when the key is present, and KeyError otherwise |
| Cty.BigCty.Keys | notctyparser/bigcty.py:270-271 | iteration yields exactly the keys for which `cty[key]` succeeds |

## Left out

- `check_update` and `update` fetch a feed and a zip file over the network and
  unpack temporary files. They are I/O only, so they are not modelled, and
  neither is their feed-date conversion, which depends on the locale's month
  names.
- Files and JSON are not modelled. `import_dat` takes the file's contents as a
  string that has already been through Python's universal-newline
  translation. `load` and `dump` work on the decoded document, a map from keys
  to entries.
- `Cty.BigCty.Load` requires a document of the shape `dump` writes: records
  under every key except `"version"`. An arbitrary JSON value under a key is
  not modelled.
- `locale.setlocale` in the constructor is a global side effect and is not
  modelled.
- `__str__` and `__repr__` are Python formatting and are not modelled.
- Dictionary insertion order is not modelled: `data` is a map, and
  `Cty.BigCty.Keys` returns a set.
- Floating point is not modelled. A float is its sign and the text of its
  magnitude, so `1.0` and `1.00` are different values here. The import never
  compares floats, and `-1 * x` only flips the sign.
- `isalpha`, `\d` and `\w` are taken to be ASCII only. `int()` and `float()`
  accept ASCII digits only, and non-ASCII letters and digits are not
  modelled. `isspace` uses Python's full list of whitespace characters.
- Dates.StrfTime: pads `%Y` to four digits. For a year below 1000 the source's
  result depends on the interpreter: where Python hands `%Y` to glibc's
  `strftime`, a version such as `00010101` gives `1-01-01`, while CPython 3.13
  on Linux pads the year itself and gives `0001-01-01`, as the model does.
- Dates.FormattedVersion: promises a ten-character `YYYY-MM-DD` text, which
  holds for a year below 1000 only on interpreters that pad `%Y`, as above.
- Dates.FormattedEightDigits: differs in the same way for years below 1000.
- Dates.FormattedImportedVersion: gives `0001-01-01` for a text holding
  `VER00010101`, which is the source's result only on interpreters that pad
  `%Y`, as above.
- Cty.BigCty.FormattedVersion: differs in the same way for years below 1000.
- Strings.Strip: its own contract does not say which part of the input is
  kept. `Strings.StripCuts` states that as a separate lemma, so that the many
  proofs that use `strip` do not carry it.
- CtyData.CleanLine: likewise, `CtyData.CleanLineCuts` states which part of
  the line is kept.
- Numbers.ParseInt: has no digit limit. CPython 3.10.7 and later raise ValueError when `int()` is given more than 4300 decimal
  digits (the default `sys.get_int_max_str_digits()`), so a header field or a
  bracketed zone of that length aborts the import there, and
  `CtyData.HeaderRoundTrip`, `Numbers.IntRoundTrip`, `Numbers.ParseDigits` and
  `CtyData.IntFieldOf` claim success on such inputs. The limit is a setting
  of the interpreter, not of the importer.
- Numbers.IntRoundTrip: holds for decimal texts of any length; see
  `Numbers.ParseInt` above for the interpreter's digit limit.
- Numbers.ParseDigits: likewise for digit groups of any length.
- CtyData.HeaderRoundTrip: likewise for zone fields of any length.
- CtyData.IntFieldOf: likewise for bracketed zones of any length.
