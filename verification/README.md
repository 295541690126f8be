# jsxgettext core, modelled in Dafny

jsxgettext extracts translatable strings from JavaScript, EJS, Jinja and Jade
sources into a gettext catalog. This project models the core of that
extractor:

- **The JavaScript scanner** (`lib/scanners/javascript.js`):
  - the call-site test `checkExpr` with `isStringLiteral` and `isStrConcatExpr`;
  - the literal resolution `extractStr`;
  - the pre-order walk that reports every accepted call with its line and its parent's leading comments;
  - the `add-comments` filter;
  - the merge of each hit into the `msgid -> entry` object of the default context;
  - the hash-bang strip.
- **The template front ends and table shaping** (`lib/jsxgettext.js`):
  - `parseEJS`, which Jinja reuses with `{{`/`}}`;
  - `parseJade` with its helper `extractGettext`, over an abstract token stream;
  - the translation-table skeleton, `join-existing` and the header defaults of `extract`;
  - the POT timestamp rewrite;
  - the optional two-level sort of `compile`.

Modules and what they hold:

| file | module | what it holds |
|---|---|---|
| `wrappers.dfy` | `Wrappers` | `Option` and `Result` |
| `strings.dfy` | `Strings` | JavaScript `split`/`join`/`trim`/`indexOf` on `seq<char>` |
| `jsobject.dfy` | `JsObject` | a JavaScript object as an insertion-ordered association list, with `Object.keys`, lookup, assignment and the key sort |
| `jsast.dfy` | `JsAst` | the syntax-tree nodes the scanner inspects, `checkExpr` and `extractStr` |
| `traverse.dfy` | `Traverse` | the pre-order walk and the hits it reports |
| `catalog.dfy` | `Catalog` | entries, the `add-comments` filter, the per-hit merge and the scan of all sources |
| `table.dfy` | `Table` | skeleton, `join-existing`, header defaults, timestamp, sort and `extract` up to the PO writer |
| `ejs.dfy` | `Ejs` | `parseEJS` and the Jinja front end |
| `jade.dfy` | `Jade` | `extractGettext`'s two global case-insensitive searches and `parseJade`'s line buffer |

Each operation is paired with an independent reading of what it should do,
and lemmas connect the two:

- the walk, with the list of all visits filtered by `checkExpr`;
- `extractStr`, with the concatenation of the `+` tree's leaves;
- the merge, with "recorded" (`Catalog.Absorbed`), which makes a second merge of the same hits the identity;
- the EJS loop, with a per-piece reading: the newlines of plain text, and one fragment per tag;
- the Jade loop, with "each line holds the last write aimed at it";
- the regular-expression searches, with a direct definition of a match;
- the sort, with lookups and ascending order.

Behaviour worth knowing:

- **Newlines inside an EJS tag.** They are emitted twice (`Ejs.TagNewlinesDoubled`), so lines after a multi-line tag shift.
- **The include test.** It is the regular expression `^\s*include\s*[^\s]+\s*$`, so `includefoo` also counts as an include.
- **Headers.** Loaded headers win over the ten defaults.
- **`join-existing`.** The loaded translations replace the skeleton, descriptive comment included.
- **A loaded catalog without the default context `""`.** The scanner throws at the first hit (`Catalog.ScanSources` returns `Err`).
- **A computed member callee with no keyword.** In `a["x"]("y")` the callee counts as a gettext call, because `undefined === undefined` (`JsAst.ComputedMemberQuirk`).
- **Several Jade attributes with gettext calls on one tag.** Their calls are joined with no separator and followed by a single `;` (`Jade.TokenWrite`). `a(title=gettext('a'), alt=gettext('b'))` gives `gettext('a')gettext('b');`, which is not valid JavaScript when handed to the scanner.

## Model

| member | source | states |
|---|---|---|
| Catalog.FirstLineEnd | lib/scanners/javascript.js:18 | the end of `/^#.*/`'s match: the first line terminator, or the end of the text, with no terminator before it |
| Catalog.StripHashBang | lib/scanners/javascript.js:18 | only a first line starting with `#` is emptied, up to but not including its line terminator; any other text is returned unchanged |
| Catalog.StripHashBangKeepsLines | lib/scanners/javascript.js:18 | the strip keeps every line terminator, so every later line keeps its number |
| JsAst.IsStringLiteral | lib/scanners/javascript.js:115-117 | no contract of its own; a node is a string literal iff it is a literal holding a string; `JsAst.ResolvableIffStringLeaves` uses it |
| JsAst.IsStrConcatExpr | lib/scanners/javascript.js:124-132 | no contract of its own; `JsAst.StrConcatIffStringLeaves` characterises it |
| JsAst.CheckExpr | lib/scanners/javascript.js:139-154 | no contract of its own; `JsAst.CheckExprIff` characterises it |
| JsAst.CalleeMatches | lib/scanners/javascript.js:143-150 | no contract of its own; the callee half of `checkExpr`, characterised within `JsAst.CheckExprIff` |
| JsAst.ExtractStr | lib/scanners/javascript.js:162-167 | no contract of its own; `JsAst.ExtractStrIsLeafText` characterises it |
| JsAst.StrConcatIffStringLeaves | lib/scanners/javascript.js:124-132 | `isStrConcatExpr` holds iff the node is a binary `+` all of whose leaves, on both sides recursively, are string literals |
| JsAst.ResolvableIffStringLeaves | lib/scanners/javascript.js:124-132 | an argument is a string literal or an accepted concatenation iff every leaf of its `+` tree is a string literal; one identifier or number leaf rejects it |
| JsAst.ExtractStrIsLeafText | lib/scanners/javascript.js:162-167 | for every accepted argument, `extractStr` is the concatenation of the literal leaves, left to right |
| JsAst.ConcatenationExample | lib/scanners/javascript.js:162-167 | example: `"a" + "b" + "c"` resolves to `"abc"` |
| JsAst.CheckExprIff | lib/scanners/javascript.js:139-154 | `checkExpr` accepts exactly the calls with a first argument whose leaves are all string literals, whose callee is the identifier `gettext` or the keyword, or a member expression whose property name is `gettext` or the keyword; a call without arguments is rejected |
| JsAst.ComputedMemberQuirk | lib/scanners/javascript.js:147-149 | with no keyword, a member callee whose property has no name is accepted; with a keyword, it is not |
| Traverse.Hits | lib/scanners/javascript.js:29-36 | no contract of its own; the walk fused with the test; `Traverse.HitsArePreOrderMatches` characterises it |
| Traverse.HitsAll | lib/scanners/javascript.js:29-36 | no contract of its own; the walk over sibling nodes; `Traverse.HitsAllArePreOrderMatches` characterises it |
| Traverse.HitsArePreOrderMatches | lib/scanners/javascript.js:29-36 | the walk reports exactly the accepted nodes among all visits in pre-order, each with its resolved text, its line and its parent's comments |
| Traverse.HitsAllArePreOrderMatches | lib/scanners/javascript.js:29-36 | the same for a list of sibling nodes: their hits are the accepted nodes among their visits, in order |
| Traverse.Visits | lib/scanners/javascript.js:29-31 | the first visit of a subtree is its root, carrying its parent's comments |
| Traverse.HitsOfSound | lib/scanners/javascript.js:32-36 | every reported hit comes from an accepted call among the visits, carrying that call's leaf text, line and parent comments |
| Traverse.HitsOfComplete | lib/scanners/javascript.js:32-36 | every accepted call among the visits is reported |
| Traverse.StatementCommentsReachCall | lib/scanners/javascript.js:62 | a call directly inside a statement reports the statement's leading comments, not its own |
| Catalog.CommentValue | lib/scanners/javascript.js:66-70 | with a non-empty tag, a comment contributes iff it contains the tag, as its text minus the first character, trimmed; with `true`, every comment contributes trimmed; with the option off, nothing |
| Catalog.CandidatesMembers | lib/scanners/javascript.js:62-75 | a value is collected iff it is non-empty and some leading comment yields it |
| Catalog.Candidates | lib/scanners/javascript.js:62-74 | no empty comment value is ever collected, and none at all with the option off |
| Catalog.AppendAbsent | lib/scanners/javascript.js:72-82 | pushing values not yet listed keeps the list as a prefix, lists exactly the old and the new values, and adds only values that were absent |
| Catalog.TranslatorLines | lib/scanners/javascript.js:54-74 | the existing translator lines are kept in order; only non-empty collected values not already present are appended; every collected value ends up listed; with the option off the lines are unchanged; no duplicate is introduced |
| Catalog.AppendAbsentCount | lib/scanners/javascript.js:72-82 | appending absent values lists each new value exactly once and leaves every other count unchanged |
| Catalog.AppendAbsentNoDup | lib/scanners/javascript.js:72-82 | appending absent values keeps a duplicate-free list duplicate-free |
| Catalog.AppendAbsentPresent | lib/scanners/javascript.js:80-82 | appending only values already listed changes nothing |
| Catalog.Reference | lib/scanners/javascript.js:79 | no contract of its own; `filename + ':' + line`; `Catalog.FirstReference` and `Catalog.ReferenceListedOnce` use it |
| Catalog.ExistingReferences | lib/scanners/javascript.js:51-53 | no contract of its own; the stored reference comment split at spaces, empty when absent; `Catalog.MergedReferences` reads merges back with it |
| Catalog.ExistingTranslator | lib/scanners/javascript.js:54-55 | no contract of its own; the stored translator comment split at newlines, empty when absent; `Catalog.MergedTranslator` reads merges back with it |
| Catalog.MergedBase | lib/scanners/javascript.js:38-58 | a fresh message has empty context, the key and an empty `msgstr`; an existing entry's own `msgctxt`, `msgid`, `msgstr`, comments and other fields win |
| Catalog.MergeEntry | lib/scanners/javascript.js:38-95 | the merged entry keeps the existing `msgstr` and all other fields, always has a reference comment, and keeps the old translator comment when no line is collected |
| Catalog.MergedReferences | lib/scanners/javascript.js:47-89 | the stored reference comment splits back into the old references followed by the new one when it was absent |
| Catalog.MergedTranslator | lib/scanners/javascript.js:54-93 | the stored translator comment splits back into exactly the merged translator lines |
| Catalog.MergeEntryLists | lib/scanners/javascript.js:47-93 | reading back the stored comments gives the old references with the new one appended if absent, and exactly the merged translator lines |
| Catalog.MergedKeepsReference | lib/scanners/javascript.js:51-89 | every reference already listed is still listed after the merge |
| Catalog.MergedKeepsTranslator | lib/scanners/javascript.js:54-93 | every translator line already listed is still listed after the merge |
| Catalog.MergedReferenceOnce | lib/scanners/javascript.js:78-89 | the stored references list the new reference exactly once, after the earlier ones, with nothing else following |
| Catalog.AppendOnce | lib/scanners/javascript.js:80-82 | pushing a reference listed at most once leaves it listed exactly once, after the unchanged earlier ones |
| Catalog.MergeHit | lib/scanners/javascript.js:95 | the hit's key maps to the merged entry; every other key is untouched; a new key is appended after the existing ones |
| Catalog.ReferenceListedOnce | lib/scanners/javascript.js:78-89 | after a hit, `filename:line` is listed exactly once, earlier references keep their order, and nothing but the new reference follows them |
| Catalog.TranslatorCommentsListed | lib/scanners/javascript.js:62-93 | with `add-comments` on, and no collected comment holding a newline after trimming, every non-empty collected comment is listed after a hit, after the lines already there, without introducing duplicates |
| Catalog.FirstReference | lib/scanners/javascript.js:78-89 | example: the first hit of a message stores its reference alone |
| Catalog.SecondReference | lib/scanners/javascript.js:78-89 | example: a different second reference is appended after the first, separated by one space |
| Catalog.CrossFileReferences | lib/scanners/javascript.js:16-95 | example: one message hit in two files at different places gives one entry whose reference comment is the first reference, a space, then the second |
| Catalog.AllHits | lib/scanners/javascript.js:16-36 | no contract of its own; the hits of every source in order, each with its file name; `Catalog.ScanSources` states the scan in its terms |
| Catalog.FoldHits | lib/scanners/javascript.js:16-99 | no contract of its own; the in-order merge of the hits; `Catalog.FoldHitsGet`, `Catalog.FoldRecordsAll` and `Catalog.FoldIdempotent` characterise it |
| Catalog.FoldHitsGet | lib/scanners/javascript.js:16-99 | after all hits, keys no hit names keep their entry and every key a hit names has one |
| Catalog.FoldTwo | lib/scanners/javascript.js:16-95 | two hits are merged in the order they are reported, the second over the result of the first |
| Catalog.FoldSplit | lib/scanners/javascript.js:16-95 | merging all hits is merging a prefix and then the rest over the bucket the prefix produced |
| Catalog.MergeAbsorbed | lib/scanners/javascript.js:47-95 | merging a hit the entry already records returns the bucket unchanged |
| Catalog.MergeRecords | lib/scanners/javascript.js:47-95 | merging a hit records it, when its file name holds no space and none of its collected comments holds a newline (`Catalog.SplittableHit`) |
| Catalog.MergeKeepsRecorded | lib/scanners/javascript.js:47-95 | merging a hit that satisfies `Catalog.SplittableHit` keeps every hit already recorded recorded |
| Catalog.FoldRecordsAll | lib/scanners/javascript.js:16-99 | after merging a sequence of hits that each satisfy `Catalog.SplittableHit`, every one of them is recorded |
| Catalog.FoldIdempotent | lib/scanners/javascript.js:16-99 | merging the same hits again leaves the entries as they are, when every hit satisfies `Catalog.SplittableHit`; `Catalog.RepeatedMultiLineCommentAsWritten` and `Catalog.RepeatedSpacedFileNameAsWritten` show that it fails otherwise |
| Catalog.RepeatedMultiLineCommentAsWritten | lib/scanners/javascript.js:51-93 | a message first hit with one comment whose trimmed value `w` holds a newline stores `w`; the same hit again stores `w`, a newline, and `w`, because the stored comment splits into its lines and `w` is not among them |
| Catalog.TranslatorReadBack | lib/scanners/javascript.js:54-93 | an entry storing the translator comment `w`, with `w` holding a newline, stores `w`, a newline, and `w` after `w` is collected again |
| Catalog.RepeatedSpacedFileNameAsWritten | lib/scanners/javascript.js:51-89 | a message first hit in a file whose name holds a space stores its reference `r`; the same hit again stores `r`, a space, and `r` |
| Catalog.ReferenceReadBack | lib/scanners/javascript.js:51-89 | an entry storing the reference `r`, with `r` holding a space, stores `r`, a space, and `r` after a hit at `r` |
| Catalog.ScanSources | lib/scanners/javascript.js:13-108 | without hits the translations come back untouched; a hit with no default context is an error and nothing else is; otherwise only the default context changes, to the in-order merge of all hits |
| Table.ScanSourcesWellFormed | lib/scanners/javascript.js:13-108 | the scan keeps every context and every bucket free of repeated keys |
| Table.FoldHitsUnique | lib/scanners/javascript.js:95 | merging hits into a bucket with distinct keys keeps its keys distinct |
| Table.Skeleton | lib/jsxgettext.js:45-61 | the starting table has distinct keys, and its default context holds only the `""` entry with the descriptive comment |
| Table.JoinExisting | lib/jsxgettext.js:64-70 | with a loaded catalog, its headers and translations replace the skeleton's; without one, the table is unchanged; the charset stays |
| Table.Defaults | lib/jsxgettext.js:73-84 | no contract of its own; `_.defaults`; `Table.DefaultsGet` and `Table.DefaultsKeys` characterise it |
| Table.DefaultHeaders | lib/jsxgettext.js:74-83 | no contract of its own; the ten default headers; `Table.DefaultHeadersUnique` and `Table.CreationDateDefault` state their keys and the creation date |
| Table.CreationDateDefault | lib/jsxgettext.js:76 | the default `pot-creation-date` header holds the timestamp passed in |
| Table.DefaultsGet | lib/jsxgettext.js:73-84 | after `_.defaults`, a header the object has keeps its value and a missing one takes the default |
| Table.DefaultsKeys | lib/jsxgettext.js:73-84 | the keys after `_.defaults` are the object's own, then the default keys it lacked, in their order |
| Table.DefaultsUnique | lib/jsxgettext.js:73-84 | `_.defaults` keeps keys distinct |
| Table.DefaultHeadersUnique | lib/jsxgettext.js:74-83 | the ten default header names are distinct |
| Table.DefaultsOfEmpty | lib/jsxgettext.js:73-84 | from no headers, the result is exactly the defaults in order |
| Table.ApplyDefaults | lib/jsxgettext.js:73-84 | header defaulting touches neither the charset nor the translations |
| Table.PotTimeStamp | lib/jsxgettext.js:28-34 | no contract of its own; `getPOTTimeStamp` on the clock's ISO string; `Table.PotTimeStampOfIso` characterises it |
| Table.ReplaceSeconds | lib/jsxgettext.js:33 | no contract of its own; `replace(/:\d{2}.\d{3}Z/, '+0000')`; `Table.ReplaceSecondsOfSpacedIso` characterises it on the date's shape |
| Table.PotTimeStampOfIso | lib/jsxgettext.js:33 | on an ISO-8601 string, the timestamp is `YYYY-MM-DD HH:mm+0000` |
| Table.ReplaceFirstTOfIso | lib/jsxgettext.js:33 | `replace('T', ' ')` turns the date/time separator into a space |
| Table.ReplaceSecondsOfSpacedIso | lib/jsxgettext.js:33 | the seconds pattern first matches at index 16 and is replaced by `+0000` |
| Table.ReplaceFirstT | lib/jsxgettext.js:33 | replacing the first `T` keeps the length and leaves a string without `T` unchanged |
| Table.SortTranslations | lib/jsxgettext.js:102-122 | no contract of its own; the two-level rebuild; `Table.SortTranslationsLookup`, `Table.SortTranslationsSorted` and `Table.SortTranslationsOfSorted` characterise it |
| Table.SortTranslationsLookup | lib/jsxgettext.js:102-122 | sorting moves nothing: every context/key lookup gives what it gave before, and the same contexts exist |
| Table.SortTranslationsSorted | lib/jsxgettext.js:102-122 | after sorting, contexts and the keys within each context are strictly ascending |
| Table.SortTranslationsOfSorted | lib/jsxgettext.js:102-122 | a table already sorted at both levels is left as it is |
| Table.SortBuckets | lib/jsxgettext.js:108-119 | every context keeps its place in the context list and its bucket is that bucket rebuilt in key order |
| Table.Compile | lib/jsxgettext.js:99-128 | without `sort` the table is untouched; headers and charset never change |
| Table.CompileSorts | lib/jsxgettext.js:99-128 | with `sort`, both levels are ascending, every lookup is preserved, and sorting again changes nothing |
| Table.Extract | lib/jsxgettext.js:40-92 | without joining, extraction cannot fail; it fails exactly when a loaded catalog lacks the default context and there are hits; the charset is `utf-8` and the headers are the defaults applied over the joined ones |
| Table.ExtractSorted | lib/jsxgettext.js:88-122 | with `sort`, the extracted catalog is ascending at both levels |
| Table.ExtractHeaders | lib/jsxgettext.js:64-84 | without joining, the headers are exactly the ten defaults; with joining, a loaded header keeps its value and a missing one takes its default |
| Table.ExtractCreationDate | lib/jsxgettext.js:28-84 | unless a loaded catalog has its own, the `pot-creation-date` of the extracted catalog is `YYYY-MM-DD HH:mm+0000` of the clock's ISO string |
| JsObject.Set | lib/scanners/javascript.js:95 | `o[k] = v`: the key maps to `v`, every other key is untouched, a new key is appended, distinct keys stay distinct |
| JsObject.Get | lib/scanners/javascript.js:48 | `o[k]` is absent exactly when `k` is not a key, and a found value is stored under `k` |
| JsObject.GetMember | lib/scanners/javascript.js:48 | with distinct keys, `o[k]` is `v` iff the pair `(k, v)` is in the object |
| JsObject.SetUnchanged | lib/scanners/javascript.js:95 | storing the value a key already holds leaves the object unchanged |
| JsObject.StrLt | lib/jsxgettext.js:106 | no contract of its own; the default `sort()` order on keys; `JsObject.StrLtIrreflexive`, `JsObject.StrLtTransitive` and `JsObject.StrLtTotal` make it a strict total order |
| JsObject.StrLtTotal | lib/jsxgettext.js:112 | of two different keys, one sorts before the other |
| JsObject.StrLtTransitive | lib/jsxgettext.js:112 | the key order is transitive |
| JsObject.SortByKeyAscending | lib/jsxgettext.js:106-118 | with distinct keys, rebuilding an object in `keys.sort()` order gives strictly ascending keys |
| JsObject.SortByKey | lib/jsxgettext.js:112-116 | rebuilding in key order keeps exactly the same key/value pairs, with multiplicity |
| JsObject.SortByKeyGet | lib/jsxgettext.js:112-116 | with distinct keys, every lookup after rebuilding gives what it gave before |
| JsObject.SortByKeyPermutes | lib/jsxgettext.js:108-118 | the rebuilt object maps the same keys to the same values |
| JsObject.SortByKeySorted | lib/jsxgettext.js:106-118 | an object already in ascending order is rebuilt unchanged |
| Strings.SplitJoin | lib/scanners/javascript.js:52-55 | splitting a join of separator-free pieces returns the pieces |
| Strings.JoinSplit | lib/scanners/javascript.js:52-55 | joining the pieces of a split restores the string |
| Strings.JoinAppend | lib/scanners/javascript.js:89-92 | joining one more part adds the separator and then the part after the joined parts |
| Strings.TrimIsSlice | lib/scanners/javascript.js:67-69 | `trim` returns the slice between a white-space prefix and a white-space suffix |
| Strings.Trim | lib/scanners/javascript.js:67-69 | `trim` never lengthens a string, and a non-empty result starts and ends with a non-white-space character |
| Strings.Split | lib/scanners/javascript.js:52-55 | `split` yields at least one piece, and no piece contains the separator |
| Strings.Newlines | lib/jsxgettext.js:193-200 | the line breaks emitted for a text are one `\n` per newline in it and nothing else |
| Strings.IndexOf | lib/jsxgettext.js:189 | `indexOf` returns the first occurrence at or after the start, or -1 exactly when there is none |
| Ejs.Delimiter | lib/jsxgettext.js:172-174 | an absent or empty delimiter option falls back to the default |
| Ejs.BodyStart | lib/jsxgettext.js:180-187 | one `=` or `-` right after the open delimiter is skipped, and nothing else |
| Ejs.TrimDash | lib/jsxgettext.js:190-192 | a body ending in `-` loses its last two characters; any other body is kept |
| Ejs.Scan | lib/jsxgettext.js:179-202 | no contract of its own; the loop of `parseEJS` as pieces; `Ejs.ScanText`, `Ejs.TagStep` and `Ejs.UnclosedTagRejected` characterise it |
| Ejs.Emit | lib/jsxgettext.js:179-204 | no contract of its own; the pieces joined; `Ejs.PlainTextKeepsLines` and `Ejs.TagEmitted` characterise it |
| Ejs.ParseEJS | lib/jsxgettext.js:171-205 | no contract of its own; `Ejs.Emit` with the delimiters `Ejs.Delimiter` picks; `Ejs.OutputTag` is an instance |
| Ejs.ParseJinja | lib/jsxgettext.js:156 | no contract of its own; `parseEJS` with `{{` and `}}`; `Ejs.JinjaTag` characterises one tag |
| Ejs.ScanText | lib/jsxgettext.js:199-201 | text before an open delimiter contributes one line break per newline and nothing else |
| Ejs.RenderBreaks | lib/jsxgettext.js:199-204 | the pieces produced for plain text join to exactly its newlines |
| Ejs.PlainTextKeepsLines | lib/jsxgettext.js:179-204 | a template without an open delimiter becomes exactly its newlines |
| Ejs.TagStep | lib/jsxgettext.js:180-197 | a complete tag yields its body, with the marker skipped, and scanning resumes after the close delimiter |
| Ejs.TagEmitted | lib/jsxgettext.js:180-204 | in the joined output, a complete tag contributes its fragment, followed by the output of the text after it |
| Ejs.UnclosedTagRejected | lib/jsxgettext.js:189-197 | an open delimiter with no close delimiter after it is an error |
| Ejs.TagNewlinesDoubled | lib/jsxgettext.js:193-196 | outside include statements, each newline inside a tag appears twice in the output |
| Ejs.IsInclude | lib/jsxgettext.js:195 | no contract of its own; the include pattern; `Ejs.IncludeRecognised` and `Ejs.NotInclude` characterise it |
| Ejs.Fragment | lib/jsxgettext.js:189-196 | no contract of its own; the text one tag body contributes; `Ejs.FragmentPlain`, `Ejs.IncludeDropped` and `Ejs.TagNewlinesDoubled` characterise it |
| Ejs.FragmentPlain | lib/jsxgettext.js:189-196 | a one-line body that is not an include contributes itself followed by `;` |
| Ejs.IncludeDropped | lib/jsxgettext.js:195 | `include` with one space-free operand contributes only `;` |
| Ejs.IncludeRecognised | lib/jsxgettext.js:195 | `include`, a space and a non-empty space-free operand matches the include pattern |
| Ejs.NotInclude | lib/jsxgettext.js:195 | code whose first non-blank character is not `i` is never an include |
| Ejs.OutputTag | lib/jsxgettext.js:171-205 | example: `<%= code %>` on one line yields `code;`, and scanning resumes after `%>` |
| Ejs.JinjaTag | lib/jsxgettext.js:156 | example: a one-line Jinja tag yields `code;`, and scanning resumes after `}}` |
| Ejs.OpenTagStepAsWritten | lib/jsxgettext.js:189-197 | the loop's index arithmetic as written: after a closed tag it resumes past the close delimiter; with no close delimiter it resumes at `close.length - 1` |
| Ejs.UnclosedTagLoopsAsWritten | lib/jsxgettext.js:179-197 | on `a<%b` the pass at index 1 takes `a<%` as code and sends the loop back to index 1 |
| Ejs.UnclosedTagAtStartAsWritten | lib/jsxgettext.js:179-197 | on `<%b` the pass at index 0 takes `<%` as code and resumes at index 1, after which no open delimiter follows, so the loop ends; the model rejects the template |
| Ejs.UnclosedTagLaterAsWritten | lib/jsxgettext.js:179-197 | on `<%b<%` the pass at index 0 resumes at index 1; the next open delimiter is at index 3, and the pass there takes `<%b<%` as code and sends the loop back to index 1, so the loop never ends |
| Jade.MatchAtIff | lib/jsxgettext.js:219-220 | the greedy match at a position exists and ends at `j` iff `gettext(`, the quote, one or more non-quote characters and the quote occupy exactly the text up to `j`, letters compared case-insensitively |
| Jade.MatchAt | lib/jsxgettext.js:219-220 | a match found at a position ends after `gettext(` and the quote, and inside the string |
| Jade.Matches | lib/jsxgettext.js:219-220 | the global search returns matches in increasing order that do not overlap, all inside the string |
| Jade.MatchTableAt | lib/jsxgettext.js:219-220 | each entry of the match table is the match that starts at its position |
| Jade.MatchesSound | lib/jsxgettext.js:219-220 | every pair the global search finds is a match |
| Jade.MatchesBeforeFirst | lib/jsxgettext.js:219-220 | no match starts before the first one found, and none at all when nothing is found |
| Jade.MatchesBetween | lib/jsxgettext.js:219-220 | no match starts strictly between two consecutive matches found |
| Jade.MatchesAfterLast | lib/jsxgettext.js:219-220 | no match starts after the last one found |
| Jade.MatchesNoneIff | lib/jsxgettext.js:219-220 | the search finds nothing iff the pattern matches nowhere |
| Jade.ExtractGettext | lib/jsxgettext.js:217-224 | no contract of its own; `Jade.ExtractGettextPieces`, `Jade.ExtractGettextEmpty` and `Jade.ExtractGettextNone` characterise it |
| Jade.ExtractGettextPieces | lib/jsxgettext.js:217-224 | the output is the double-quoted calls, then the single-quoted ones, each matched text followed by `)`, joined by `;` |
| Jade.ExtractGettextEmpty | lib/jsxgettext.js:217-224 | the result is empty iff the value is not a string or neither pattern matches anywhere in it |
| Jade.ExtractGettextNone | lib/jsxgettext.js:217-224 | for a string, the result is empty iff both global searches come back empty |
| Jade.AttrCalls | lib/jsxgettext.js:232-236 | a string is kept iff it is the non-empty `extractGettext` result of some attribute; at most one per attribute |
| Jade.TokenWrite | lib/jsxgettext.js:230-244 | a text or code token writes its `extractGettext` result followed by `;` exactly when that result is non-empty; an attribute token writes its kept calls joined with nothing, then `;`, exactly when it has some; end-of-source and other tokens write nothing; a write is never a bare `;` |
| Jade.Write | lib/jsxgettext.js:237-242 | `buf[n] = w` sets slot `n`, pads with holes that join as empty lines, and leaves the array unchanged for a negative index |
| Jade.Run | lib/jsxgettext.js:226-245 | no contract of its own; the token loop; `Jade.RunIsStepAll` and `Jade.BufferIsLastWrite` characterise it |
| Jade.ParseJade | lib/jsxgettext.js:207-248 | no contract of its own; the loop's buffer joined with newlines; `Jade.BufferIsLastWrite` and `Jade.OutputLines` characterise it |
| Jade.RunIsStepAll | lib/jsxgettext.js:227-245 | the loop serves the requests of exactly the tokens up to and including the first end-of-source token, in order |
| Jade.StepAllIsExpected | lib/jsxgettext.js:229-245 | serving the requests in order leaves each line holding the last write aimed at it |
| Jade.BufferIsLastWrite | lib/jsxgettext.js:226-247 | `parseJade` joins, with newlines, the buffer in which each line holds the last write of a token on that line |
| Jade.OutputLines | lib/jsxgettext.js:247 | when no write contains a newline, the output's lines are exactly the buffer's slots |
| Jade.LineTextFrom | lib/jsxgettext.js:237-242 | every non-empty line of the buffer is the text of some request, that is, of some token's write |

## Left out

- **Parsing.** `esprima` parsing and `estraverse.attachComments` are library code. Each source is given as a file name plus its syntax tree, and each call node carries its line and its leading comments. A parse failure is therefore not modelled. Leading comments are attached only to calls and to statement-like `Compound` nodes; other node kinds report none.
- **The PO writer.** `gettext-parser` (`po.parse`, `po.compile`) is library code. The model stops at the table handed to `po.compile`, so escaping, folding and rendering are not modelled. A loaded catalog is given as the parsed headers and translations.
- **File reads.** The file read and path resolution for `join-existing` are I/O; the parsed catalog is a parameter.
- **The clock.** The ISO string `new Date().toISOString()` is the `iso` parameter of `Table.PotTimeStamp` and `Table.Extract`; `Table.Extract` builds the `pot-creation-date` default from it through `Table.PotTimeStamp`.
- **The Jade lexer.** It is library code; `parseJade` takes the token stream as its input.
- **The `genEJS`/`genJade`/`genJinja` wrappers.** They only map the front ends over the sources before `extract`.
- **The unused `lineFromRange`.** Nothing calls it.
- **JavaScript object key order.** Integer-like keys come first in V8; the model keeps plain insertion order. Inherited prototype properties such as `constructor` are not modelled as keys.
- **String comparison in `keys.sort()`.** JavaScript compares UTF-16 code units. `JsObject.StrLt` compares characters, which agrees on the Basic Multilingual Plane only.
- **String lengths.** These are in characters, not UTF-16 code units.
- **`checkExpr` on non-call nodes.** Whether such nodes have `arguments` or `callee` does not matter: the model only gives calls those fields.
- **The default-context lookup.** The scanner always uses context `""`; `msgs[context][key]` on a missing context is the `Catalog.ScanSources` error.
- **The case-insensitive match in `extractGettext`.** It folds ASCII letters only. That is all a non-Unicode `i` flag does to the ASCII pattern `gettext(`.
- Table.ExtractSorted: requires the loaded catalog to have distinct keys at both levels, which a JavaScript object always has and an association list need not.
- Jade.ExtractGettextPieces: states each piece's text and position but not that it is a match; `Jade.MatchesSound` states that.
- Ejs.TagStep: covers one tag at the start of the remaining text whose body holds no close delimiter. Text before a tag is covered by combining it with `Ejs.ScanText`.
- Ejs.Scan: every unclosed tag is `Err(UnclosedTag)`. In `parseEJS` an unclosed tag sends the loop back to index `close.length - 1`, and every later open delimiter is unclosed too. The loop therefore ends only when the unclosed tag starts before index `close.length - 1` and no open delimiter starts at that index or later (`<%b` ends, `Ejs.UnclosedTagAtStartAsWritten`; `<%b<%` loops, `Ejs.UnclosedTagLaterAsWritten`). The output in that case is as follows. First come the newlines of the text before the tag. Then comes the text from the start up to the body, with the newlines in it, ahead of `;`. A `-` marker makes it lose its last two characters instead, so `<%-b` gives `<;`. Last come the newlines from index `close.length - 1` on.
- Catalog.ReferenceListedOnce: assumes the file name contains no space and the reference is not already listed twice. Otherwise the space-joined reference list does not split back into the same references, or a duplicate loaded from the catalog stays.
- Catalog.TranslatorCommentsListed: promised only when no collected comment holds a newline after trimming. The stored translator comment is read back by splitting on newlines. A multi-line comment is therefore not found among the lines already there, and it is appended again (`Catalog.RepeatedMultiLineCommentAsWritten`: `a\nb` is stored as `a\nb\na\nb` after a second hit).
- Catalog.MergeRecords: promised only under `Catalog.SplittableHit`, meaning no space in the file name and no newline in a collected comment. Otherwise the reference or the comment does not read back as itself, so the hit is not "recorded" and a repeat of it appends it again (`Catalog.RepeatedSpacedFileNameAsWritten`, `Catalog.RepeatedMultiLineCommentAsWritten`).
- Catalog.MergeKeepsRecorded: promised only when the new hit satisfies `Catalog.SplittableHit`, for the reasons given for `Catalog.MergeRecords`.
- Catalog.FoldRecordsAll: promised only when every hit satisfies `Catalog.SplittableHit`, for the reasons given for `Catalog.MergeRecords`.
- Catalog.FoldIdempotent: promised only when every hit satisfies `Catalog.SplittableHit`. Outside that domain a second extraction over the same sources grows the entries. A file name with a space gets its reference listed again, and a multi-line comment is appended again (`Catalog.RepeatedSpacedFileNameAsWritten`, `Catalog.RepeatedMultiLineCommentAsWritten`).

## Findings

| source | as written | input that shows it | evidently intended | confidence | as-written member | corrected member |
|---|---|---|---|---|---|---|
| lib/jsxgettext.js:189-197 | with no close delimiter, `indexOf` gives -1; `substring(i, -1)` takes the text before the tag, and `i += end - start + close.length - 1` moves the index back to `close.length - 1`. When the open delimiter starts at index `close.length - 1` or later, the loop reaches the same open delimiter again, forever. At an earlier index the pass emits the text from the start up to the body (less two characters after a `-` marker) and `;`. The loop ends only if no open delimiter starts at index `close.length - 1` or later; otherwise it loops on that one | `a<%b` and `<%b<%` with the default delimiters (both loop); `<%b` (ends with `<%;`) | an open delimiter without a close delimiter is rejected | medium, not executed | Ejs.UnclosedTagLoopsAsWritten | Ejs.UnclosedTagRejected |
