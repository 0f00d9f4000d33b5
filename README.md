# cli-auth in Dafny

A model of the self-contained logic in the Akamai `auth` command-line
package. The package has two independent variants.

- `src/cli-aut.js` holds class `CliAuth`, the command-line front end, modelled by module `CliAuth`. It covers:
  - the option checks that `verify`, `paste` and `copy` run before anything else;
  - how `verify` turns a credential's scope string into grant lines and sorts them;
  - how `pasteAskBlocks` decides whether a pasted block needs a `[section]` header;
  - the question list `setup` builds.
- `src/egauth.js` holds class `edgeGridAuth`, an older library variant, modelled by module `EgAuth`. It covers:
  - quote stripping in `writeConfigFile`;
  - section selection in `readConfigFile`;
  - the status check in `makeRequest`;
  - the single grant line of its `verify`;
  - the way `setup` rebuilds the target section of the configuration object in place.

Shared modules:

- `JsValues` models the JavaScript values involved: undefined, strings, booleans and objects. It also models truthiness, property reads and string conversion.
- `JsStrings` models:
  - `String.prototype.split` with a one-character separator, characterised by joining;
  - the default `Array.prototype.sort` order, which compares UTF-16 code units;
  - decimal rendering of status codes.
- `Credentials` holds the four recognized credential fields and the question filter both `setup` commands share.
- `Wrappers` holds `Option` and `Result`.

The `ini` parser and serializer and the interactive prompt are external code. They appear as function-typed parameters, and no law is assumed about them. `merge(options, answers)` is the map union `options + answers`, in which the answers win.

The grant line reads items 5 and 7 of a scope split on `/`. In a scope such as `/a/b/c/d/e/f/g/h` the leading `/` makes item 0 empty, so the line shows `e : g`, not `f : h` (`CliAuth.TwoScopeExample`). The model follows the code here.

## Model

| member | source | states |
|---|---|---|
| JsValues.Truthy | src/cli-aut.js:33 | undefined, the empty string and false are falsy; objects, true and non-empty strings are truthy |
| JsValues.Missing | src/cli-aut.js:33 | `!options[key]` holds for an absent key, for an empty string exactly, and never for an object |
| JsValues.Get | src/cli-aut.js:33 | reading a property that is absent gives undefined; otherwise it gives the stored value |
| JsValues.ToJsString | src/cli-aut.js:63 | string concatenation shows a string as itself and undefined as the text "undefined" |
| JsValues.MissingOptionIsAbsentOrEmpty | src/cli-aut.js:33 | when all options are strings, `!options[key]` holds exactly when the key is absent or its value is the empty string |
| JsStrings.Split | src/cli-aut.js:61-62 | split gives at least one piece, and joining the pieces with the separator gives back the input |
| JsStrings.SplitLength | src/cli-aut.js:61 | split gives one more piece than the input has separators, so empty pieces are kept |
| JsStrings.SplitWithoutSeparator | src/cli-aut.js:61 | a string without the separator splits into just itself |
| JsStrings.SplitPiecesAvoidSeparator | src/cli-aut.js:62 | no piece of a split contains the separator |
| JsStrings.SplitUnique | src/cli-aut.js:61-62 | any list of separator-free pieces is what split returns for its join, so split is the inverse of join |
| JsStrings.JoinAppend | src/cli-aut.js:61 | joining a concatenation puts one separator between the two joins |
| JsStrings.SplitAfterPieces | src/cli-aut.js:62 | text after separator-free leading pieces and a separator splits into those pieces followed by the split of the text |
| JsStrings.LeadingPieces | src/cli-aut.js:62 | appending text to a join changes only its last piece; the earlier pieces come back unchanged |
| JsStrings.JoinSegments | src/cli-aut.js:62 | a leading empty segment followed by one-character names, joined by '/', spells the path `/x/y/...` |
| JsStrings.Item | src/cli-aut.js:63 | `items[k]` in a concatenation is the element when k is in range, and "undefined" past the end |
| JsStrings.LexLeTotal | src/cli-aut.js:65 | any two code-unit sequences are ordered one way or the other |
| JsStrings.LexLeTransitive | src/cli-aut.js:65 | lexicographic order on code units is transitive |
| JsStrings.CodeUnitLeTotal | src/cli-aut.js:65 | the default sort order is total on strings |
| JsStrings.CodeUnitLeTransitive | src/cli-aut.js:65 | the default sort order is transitive |
| JsStrings.SupplementarySortsBeforeLastBmpChar | src/cli-aut.js:65 | the sort compares UTF-16 code units, not code points: U+10000 sorts before U+FFFF though its code point is larger |
| JsStrings.DigitChar | src/egauth.js:154 | a digit renders as the matching character '0'..'9' |
| JsStrings.NumberToString | src/egauth.js:154 | the rendering is non-empty, starts with '-' exactly for a negative number, is otherwise made of the digits 0-9, and has no leading zero unless the number is 0 |
| JsStrings.NatDigitsRoundTrip | src/egauth.js:154 | the decimal text of a natural number reads back as that number |
| JsStrings.NumberToStringRoundTrip | src/egauth.js:154 | the decimal text of any integer, with a sign when negative, reads back as that integer |
| Credentials.Ask | src/cli-aut.js:159-163 | the question for a field is an "input" question named after the field, with the text "Please input the " + field + ": " |
| Credentials.QuestionsForNamesAndTexts | src/cli-aut.js:159-163 | every question is an "input" question for one of the fields, with the text "Please input the " + field + ": " |
| Credentials.SubsequenceExtend | src/cli-aut.js:157 | a subsequence stays one when the list grows at the end |
| Credentials.SubsequencePrefix | src/cli-aut.js:157 | dropping the last element of a subsequence leaves a subsequence |
| Credentials.MissingFields | src/cli-aut.js:157-158 | a field is asked for exactly when it is in the list and its option is falsy, and the asked fields keep the list's order |
| Credentials.MissingFieldQuestions | src/cli-aut.js:150-166 | the loop pushes one question per missing field, in list order, with kind "input" and the fixed text; the result equals the specification list |
| CliAuth.VerifyCheck | src/cli-aut.js:33-38 | verify fails with the configuration message when `config` is falsy, even if `section` is falsy too; it fails with the section message when only `section` is falsy; otherwise it passes |
| CliAuth.VerifyCheckReadsOnlyConfigAndSection | src/cli-aut.js:33-38 | no option other than `config` and `section` affects verify's check |
| CliAuth.PasteCheck | src/cli-aut.js:94-96 | paste fails with "Invalid File parameters" exactly when `config` is falsy |
| CliAuth.PasteCheckReadsOnlyConfig | src/cli-aut.js:94-96 | `section`, `from`, `to` and every other option leave paste's check unchanged |
| CliAuth.CopyCheck | src/cli-aut.js:126-128 | copy fails with the from/to message exactly when `from` or `to` is falsy |
| CliAuth.CopyCheckReadsOnlyFromAndTo | src/cli-aut.js:126-128 | `config` and every other option leave copy's check unchanged |
| CliAuth.CopyProceedsWithoutConfig | src/cli-aut.js:126-132 | copy goes ahead with a falsy `config`, passing it on as it is |
| CliAuth.Copy | src/cli-aut.js:125-132 | copy either fails the check with its message or passes config, from and to to the library call |
| CliAuth.GrantLine | src/cli-aut.js:62-63 | for a scope with at least eight '/'-separated items the line is four spaces, item 5, " : " and item 7; with six or seven items it is item 5 and "undefined"; with at most five items both read "undefined" |
| CliAuth.GrantLines | src/cli-aut.js:60-64 | there is one grant line per ' '-separated piece of the scope, empty pieces included |
| CliAuth.BuildGrants | src/cli-aut.js:60-64 | the loop pushes, for each piece of the scope, four spaces, item 5, " : " and item 7; the list it builds equals GrantLines |
| CliAuth.SinkInto | src/cli-aut.js:65 | one insertion step extends the sorted prefix by one element and keeps the array's contents as a multiset |
| CliAuth.SwapStep | src/cli-aut.js:65 | swapping the moved element with a larger left neighbour keeps the rest in order, keeps it below what follows, and keeps the multiset |
| CliAuth.SinkDone | src/cli-aut.js:65 | once the moved element is not below its left neighbour, the whole prefix is in order |
| CliAuth.SortGrants | src/cli-aut.js:65 | `grants.sort()` leaves the array in ascending UTF-16 code-unit order, as a permutation of its old contents |
| CliAuth.Verify | src/cli-aut.js:32-67 | verify returns the failed check's message, or the grant lines sorted and a permutation of the built list |
| CliAuth.JoinPaths | src/cli-aut.js:61 | joining each path gives one scope per path |
| CliAuth.JoinAvoids | src/cli-aut.js:61-62 | joining pieces that avoid a character, with a different separator, gives text without that character |
| CliAuth.GrantLinesOfPaths | src/cli-aut.js:60-64 | for a scope made of paths whose segments contain neither ' ' nor '/', line i shows segments 5 and 7 of path i, or "undefined" where the path is shorter |
| CliAuth.GrantLinesOfTwoPaths | src/cli-aut.js:60-64 | two paths joined by one space give exactly two lines, one per path, in order |
| CliAuth.EmptyScopeShowsOneUndefinedGrant | src/cli-aut.js:60-64 | an empty scope gives the single line "    undefined : undefined" |
| CliAuth.TwoScopeExample | src/cli-aut.js:60-64 | the scope "/a/b/c/d/e/f/g/h /i/j/k/l/m/n/o/p" gives the lines "    e : g" and "    m : o" |
| CliAuth.PastedText | src/cli-aut.js:79-82 | the text parsed last is the answer itself when the first parse has no truthy `host`; otherwise it is "[" + section + "]\n" followed by the answer |
| CliAuth.PasteAskBlocks | src/cli-aut.js:76-86 | the result is the parse of the pasted text; without a top-level host it is the first parse, unchanged |
| CliAuth.Paste | src/cli-aut.js:93-105 | paste fails exactly when `config` is falsy; otherwise it passes config, section and the parsed blocks to the library call |
| EgAuth.QuoteRun | src/egauth.js:50 | the regex `['"]+` matches the maximal run of quotes at the front |
| EgAuth.ReplaceQuoteRuns | src/egauth.js:50 | replacing every quote run with nothing leaves no `'` or `"` |
| EgAuth.WithoutQuotesSkipsRun | src/egauth.js:50 | removing quotes from a string ignores its leading quote run |
| EgAuth.ReplaceQuoteRunsIsFilter | src/egauth.js:50 | replacing quote runs equals deleting each quote character one by one |
| EgAuth.WithoutQuotesAppend | src/egauth.js:50 | quote removal distributes over concatenation, so the other characters keep their order |
| EgAuth.QuoteFreeUnchanged | src/egauth.js:50 | quote-free text is returned unchanged |
| EgAuth.WithoutQuotesIsQuoteFree | src/egauth.js:50 | the filtered text has no quotes |
| EgAuth.StripIdempotent | src/egauth.js:50 | stripping twice is the same as stripping once |
| EgAuth.StripKeepsOtherCharacters | src/egauth.js:50 | every character other than a quote occurs as often after stripping as before |
| EgAuth.WriteConfigFile | src/egauth.js:48-52 | the text handed to the file write has no `'` or `"` and is the input with exactly those characters removed |
| EgAuth.ReadConfigFile | src/egauth.js:30-46 | a read error gives undefined; with no section it gives the whole parsed object; with a section it gives that property, which may be undefined |
| EgAuth.ReadSectionIsLookup | src/egauth.js:37-41 | reading a section equals reading the whole object and then looking up the section |
| EgAuth.MakeRequest | src/egauth.js:149-160 | the request resolves exactly when the status code is 200; otherwise it rejects with the fixed prefix followed by the status code in decimal |
| EgAuth.RejectionNamesStatus | src/egauth.js:153-154 | for any code other than 200 the text after the prefix is the code's decimal rendering, and it reads back as that code |
| EgAuth.SplitWhole | src/egauth.js:99 | `split()` without a separator gives the whole string as its only piece |
| EgAuth.VerifyGrantLines | src/egauth.js:99-102 | verify prints exactly one line, made from items 5 and 7 of the whole scope split on '/' |
| EgAuth.VerifyVariantsAgree | src/egauth.js:99-102 | without a space the scope gives the same grant in both variants, the command-line one indented; with a space the command-line variant shows more lines |
| EgAuth.VerifyGrantLinesPerScope | src/egauth.js:99-102 | the corrected loop prints one line per ' '-separated scope |
| EgAuth.PerScopeMatchesCliAuth | src/egauth.js:99-102 | the corrected lines are the command-line variant's lines without the four-space indent |
| EgAuth.FirstScopeItems | src/egauth.js:100-101 | for a path of nine or more segments with text after it, items 5 and 7 of the split come from that path |
| EgAuth.SeveralScopesSeveralLines | src/egauth.js:99 | a scope string with a space gives at least two lines once split on ' ' |
| EgAuth.VerifyDropsLaterScopes | src/egauth.js:99-102 | when a space-separated scope follows the first, the as-written verify shows only the first scope's items 5 and 7; splitting on ' ' would show at least two lines |
| EgAuth.CountPositive | src/egauth.js:99 | a string that contains a character counts it at least once |
| EgAuth.ConfigObject.constructor | src/egauth.js:139 | a configuration object starts with the given properties |
| EgAuth.SectionKey | src/egauth.js:138-140 | the section key is the option's string, or the text "undefined" when the option is absent |
| EgAuth.FieldsFrom | src/egauth.js:141-143 | after the assignments the last listed field holds its merged value |
| EgAuth.FieldsFromStep | src/egauth.js:141-142 | one more assignment adds exactly that field with its merged value |
| EgAuth.FieldsFromContents | src/egauth.js:141-143 | the object built field by field holds exactly the listed fields, each with its merged value |
| EgAuth.RebuildSection | src/egauth.js:140-143 | in place, the target property becomes a new object holding the listed fields, assigned one by one from the merged options; every other property is unchanged |
| EgAuth.Setup | src/egauth.js:108-145 | setup asks the questions for the missing recognized fields, merges the answers over the options, and rebuilds the section in the current object or in a new one when none was read; the text written is the stripped serialization of that object |
| EgAuth.SetupSectionFields | src/egauth.js:136-143 | the target section holds exactly the four recognized fields; each takes the answer when there is one, and the option otherwise |
| EgAuth.SetupKeepsOtherSections | src/egauth.js:139-140 | every other section and top-level key is left as it was |
| EgAuth.SetupFromNothing | src/egauth.js:139-140 | with no configuration read, the result holds the target section and nothing else |
| EgAuth.SetupKeepsGivenOptions | src/egauth.js:116-143 | when the prompt answers only the questions asked, the section key comes from the options; fields given as options keep their values, and asked fields take their answers |

The question list of `edgeGridAuth.setup` (src/egauth.js:109-125) is the same loop as in `src/cli-aut.js`. `EgAuth.Setup` states its result through `Credentials.MissingFieldQuestions`.

## Left out

- Console output and `chalk` colouring are display only. This includes the credential header, the printing of grants, the "Success!" messages, and the copy message that swaps from and to (src/cli-aut.js:135).
- Interactive input through `inquirer.prompt` and the `node-ask` multiline prompt is left out. The answers are a parameter: a function of the questions in `EgAuth.Setup`, a text in `CliAuth.PasteAskBlocks`.
- `fs.readFile`, `fs.writeFile` and `untildify` are I/O. `EgAuth.ReadConfigFile` receives the outcome of the read as an `Option`, and `EgAuth.WriteConfigFile` returns the text that would be written.
- `ini.parse`, `ini.stringify` and `merge` are external code. The first two are uninterpreted function parameters, and merge is the map union in which the answers win. `merge`'s in-place update of `options` is not modelled, because nothing reads `options` afterwards except through its result.
- EdgeGrid request signing and `send`, the `edgeGridAuth` constructor, and the never-initialised `_nsClient` are network and foreign code. `EgAuth.MakeRequest` takes the response's status code as a parameter.
- The credential fetched by `verify`, the persistence done by `app.copy` and `app.paste`, and `app.setup` are left out. They live in the external `akamai-edge-grid-auth` package. `CliAuth.Paste` and `CliAuth.Copy` return the arguments of these calls, and the command-line `setup` is modelled only up to its question list.
- Promise settlement is async plumbing and is not modelled: errors are logged and swallowed, and an inner promise may never settle.
- `sleep` is a timer.
- JavaScript numbers and `null` are not part of `JsValues.Value`. Option and configuration values are modelled as undefined, strings, booleans or objects.
- EgAuth.ReadConfigFile: the section argument is also passed to `fs.readFile` as its encoding. For any truthy section that is not a Buffer encoding name, such as "default", `fs.readFile` throws synchronously and the promise rejects. The section branch is therefore reached only for names such as "utf8" or "hex". That rejection is not modelled; the contract states the outcome of a read that succeeded or failed.
- EgAuth.MakeRequest: the status code is an unbounded integer. The JavaScript number's floating-point range is not modelled.
- EgAuth.Setup: JavaScript objects keep their insertion order, and `ini.stringify` writes keys in that order. A new section is written last, a replaced section stays where it was, and the four fields come in list order. `map<string, Value>` has no order, so the order of the text `written` is not modelled, and the field-by-field assignment is observable only through the resulting contents.
- CliAuth.PasteAskBlocks: where the keys of a headerless block end up after the header is added depends on `ini.parse`, which is an uninterpreted parameter. The model states which text is parsed, not what the parser makes of it.
- CliAuth.SortGrants: `Array.prototype.sort` is specified only by its result. The model sorts by insertion; the engine's algorithm and stability are not modelled, and strings equal in the order are identical anyway.

## Findings

| source | as written | input that shows it | evidently intended | confidence | as-written member | corrected member |
|---|---|---|---|---|---|---|
| src/egauth.js:99 | `credential.scope.split()` has no separator, so the whole scope string is one piece and one grant line is printed | a scope of two space-separated paths, each with nine or more segments: only the first path's items 5 and 7 are shown, and the second is lost | `split(' ')`, as in src/cli-aut.js:61, printing one line per scope | not executed; likely, since the other front end splits on ' ' | EgAuth.VerifyDropsLaterScopes | EgAuth.VerifyGrantLinesPerScope |
