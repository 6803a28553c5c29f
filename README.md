# json-tools and csv-tools, modelled in Dafny

This project models the data-handling core of two families of small command-line scripts:

- json-tools reads a JSON document and does one of these: probes its layout, shows its schema, extracts or filters records, groups, sorts, merges, diffs, computes statistics, or transforms it to CSV.
- csv-tools does the same for CSV files: probe, schema, extract, filter, group, sort, merge, diff, statistics and validation.

Each script is one Dafny module. Five shared modules support them:

- `Text` models strings: Python's `strip`, `split` and `join`, lower-casing of ASCII letters and the Kelvin sign, integer parsing, `repr` of a string, and the text order.
- `Json` defines the JSON value. A dict is a list of members kept in insertion order, with Python's assignment and `update` semantics. `Json` also models `json.dumps` with sorted keys.
- `Seqs` holds filters, subsequences, first-occurrence deduplication and grouping.
- `Sorting` holds a stable sort that is proved stable. The sort is also proved to be a permutation, sorted, and, with `reverse=True`, the same as Python's descending sort.
- `Tally` models `Counter` with `most_common`.

`JsonCommon`, `CsvCommon` and `Conditions` model the shared helpers of the two tool families:

- the path language and `extract_values`;
- `flatten_json`, including its three array modes;
- the CSV loader, with comment filtering and header detection;
- the `EXPR_RE` split of filter conditions.

Loops in the source are Dafny methods with loop invariants. Each method is proved equal to a specification function. The properties the scripts promise are then proved about that function as lemmas.

Reading files, argument parsing, and printing to stdout are outside the model. The model starts at the parsed document or the lines of text, and ends at the value the script writes. Some library calls are parameters of the model instead of being modelled:

- the `csv` module's reader;
- `json.loads`;
- `float()`;
- `re.search`.

## Model

| member | source | states |
|---|---|---|
| JsonCommon.KeyLen | json-tools/scripts/common.py:16 | in the intended reading of `PATH_TOKEN_RE` (see "## Findings"), the key alternative reads exactly the longest run of characters other than `.`, `[` and `]` |
| JsonCommon.DigitLen | json-tools/scripts/common.py:16 | in the intended reading of `PATH_TOKEN_RE` (see "## Findings"), `\d+` inside brackets reads exactly the longest run of digits (ASCII digits only, see "## Left out") |
| JsonCommon.MatchAt | json-tools/scripts/common.py:16 | in the intended reading of `PATH_TOKEN_RE` (see "## Findings"), a match of the token pattern at a position consumes at least one character and stays inside the text |
| JsonCommon.ParsePath | json-tools/scripts/common.py:37-52 | the `finditer` loop yields exactly the tokens of the left-to-right scan, which resumes after each match and skips one character where nothing matches; the empty path gives no tokens (intended pattern, see "## Findings") |
| JsonCommon.MatchNext | json-tools/scripts/common.py:42-51 | one turn of the scan advances the position and splits the remaining tokens into this turn's token and those of the rest |
| JsonCommon.ParseRenderRoundTrip | json-tools/scripts/common.py:37-52 | reading back the text `a.b[0].c` of a token list whose keys avoid `.`, `[`, `]` and `*` gives that token list |
| JsonCommon.ExampleDoubleDot | json-tools/scripts/common.py:42-46 | repeated dots are skipped: `a..b` is the two keys `a` and `b` |
| JsonCommon.ExampleBracketKey | json-tools/scripts/common.py:16 | in the intended reading (see "## Findings"), a bracket around a non-number does not match as a bracket, and the key inside is read as a key |
| JsonCommon.ExampleNegativeIndex | json-tools/scripts/common.py:16 | in the intended reading (see "## Findings"), there is no negative index: `[-1]` is the key `-1` |
| JsonCommon.ParsePathLiteral | json-tools/scripts/common.py:16-52 | with the pattern as written, `parse_path` raises IndexError (`match.group(3)` of a two-group pattern) exactly when some position matches, and otherwise yields no tokens |
| JsonCommon.LiteralDotPaths | json-tools/scripts/common.py:16-52 | as written, every path without `]` and without a backslash parses to no tokens, so it names the whole document |
| JsonCommon.LiteralExamples | json-tools/scripts/common.py:16-52 | as written, `a.b` gives no tokens where the intended scan gives the keys `a` and `b`, and `items[0]`, `[x]` and `[-1]` raise IndexError |
| JsonCommon.Pick | json-tools/scripts/common.py:63-74 | a key or an index contributes at most one value from an item |
| JsonCommon.ExtractValues | json-tools/scripts/common.py:55-76 | the nested loops compute the token-by-token evaluation of the path; an empty path gives `[data]` |
| JsonCommon.StepValues | json-tools/scripts/common.py:62-74 | the inner loop gives, in order, each current value's contribution for the token |
| JsonCommon.EvalConcat | json-tools/scripts/common.py:55-76 | evaluating `p` then `q` is evaluating `q` from every value `p` reaches, in order |
| JsonCommon.EvalNoWildcard | json-tools/scripts/common.py:55-76 | a path without wildcards reaches at most one value |
| JsonCommon.ExistsPath | json-tools/scripts/common.py:79-81 | a path with no tokens always exists |
| JsonCommon.FirstValue | json-tools/scripts/common.py:84-87 | the result is the default or one of the extracted values |
| JsonCommon.FirstValueIsOnlyValue | json-tools/scripts/common.py:84-87 | on a wildcard-free path, extraction gives exactly the first value when the path exists, and nothing otherwise |
| JsonCommon.FirstList | json-tools/scripts/common.py:94-97 | the elements of the first list among the values, or `[]` when none is a list |
| JsonCommon.ResolveArray | json-tools/scripts/common.py:90-100 | with a non-empty path: the first list the path reaches, else `[]`; without one: the document when it is a list, else `[]` |
| JsonCommon.InputRows | json-tools/scripts/filter.py:143-145 | the resolved array, or the document alone when it is not a list and nothing resolved |
| JsonCommon.Records | json-tools/scripts/group.py:98-100 | the resolved array when non-empty, else the document's elements when it is a list, else the document alone |
| JsonCommon.Walk | json-tools/scripts/common.py:107-134 | `walk(value, prefix)` leaves the output dict equal to the old one updated with the assignments of that value, in order |
| JsonCommon.WalkList | json-tools/scripts/common.py:116-133 | the list branch: whole list in ignore mode and for scalar lists in expand mode, else the elements one by one and `[]` for an empty list under a prefix |
| JsonCommon.WalkMembers | json-tools/scripts/common.py:112-114 | the member loop makes the assignments of every member under `prefix + separator + key` |
| JsonCommon.WalkElems | json-tools/scripts/common.py:125-130 | the element loop makes the assignments of every element under `prefix[i]`, or under the prefix itself in expand mode |
| JsonCommon.FlattenJson | json-tools/scripts/common.py:103-137 | `flatten_json` gives the empty dict updated with all the assignments of the walk |
| JsonCommon.FlattenKeys | json-tools/scripts/common.py:103-137 | a flattened record has distinct keys, and each key holds the value of the last assignment to it |
| JsonCommon.FlattenScalar | json-tools/scripts/common.py:134 | a top-level scalar is stored under the empty key |
| JsonCommon.FlattenEmptyTop | json-tools/scripts/common.py:109-133 | a top-level empty dict or list vanishes in index mode; an empty list is kept whole in expand and ignore mode |
| JsonCommon.FlattenLeaves | json-tools/scripts/common.py:103-137 | every flattened value is a scalar or an empty container; lists survive only whole in ignore mode, or as scalar lists in expand mode |
| JsonCommon.FlattenResolves | json-tools/scripts/common.py:103-137 | in index mode with `.`, every flattened key is a path that `extract_values` resolves to exactly its value, when the document's keys can be written in a path |
| JsonCommon.ExampleExpandOverwrites | json-tools/scripts/common.py:125-130 | expand mode walks every element under the same prefix, so `{"a": [{"x": 1}, {"x": 2}]}` flattens to `{"a.x": 2}` |
| JsonCommon.TypeName | json-tools/scripts/common.py:140-156 | the tag is one of the seven JSON type names |
| JsonCommon.TypeNameKinds | json-tools/scripts/common.py:140-156 | two values share a tag exactly when they are the same kind of value; a boolean is never `int` |
| JsonCommon.UniqueTypesProperties | json-tools/scripts/common.py:159-161 | `unique_types` lists exactly the tags of the values, in strictly increasing order |
| JsonCommon.FrequencyProperties | json-tools/scripts/common.py:164-172 | the counts add up to the number of values; each counted text appears once, with the number of values counted under it |
| JsonCommon.FrequencyKeyOrderFree | json-tools/scripts/common.py:168-169 | a dict is counted under the same text whatever the insertion order of its keys |
| JsonCommon.ParseLiteralKeywords | json-tools/scripts/common.py:177-184 | `null`, `true` and `false` are recognised in any case, around any whitespace |
| JsonCommon.ParseLiteralFallback | json-tools/scripts/common.py:185-188 | non-keyword text that `json.loads` rejects is kept, stripped, as a string |
| JsonCommon.AllKeysHolder | json-tools/scripts/schema.py:39-41 | a key is among the counted keys exactly when some record has it |
| JsonCommon.MergedKeysProperties | json-tools/scripts/schema.py:43 | `sorted(key_counts)` holds the keys some record has, each once, in increasing order |
| JsonProbe.CollectRecordFields | json-tools/scripts/probe.py:24-37 | `collect_record_fields` gives the keys of the inspected dicts ordered by `most_common` |
| JsonProbe.CountInspected | json-tools/scripts/probe.py:28-36 | the loop feeds the Counter the keys of the first `sample` dicts (at least one), skipping non-dicts and stopping at the `sample`-th dict |
| JsonProbe.InspectedProperties | json-tools/scripts/probe.py:30-36 | only dicts are inspected, in input order, at most `max(sample, 1)` of them, and at least one when there is one |
| JsonProbe.RecordFieldsProperties | json-tools/scripts/probe.py:31-37 | every key of an inspected dict is listed once and nothing else, from the most frequent key to the least, keys of equal frequency in the order of their first appearance (the order `Counter.most_common` keeps) |
| JsonProbe.FindBestArrayChild | json-tools/scripts/probe.py:40-48 | the loop keeps the first child holding a longest list, replacing the best only on a strictly longer list |
| JsonProbe.BestChildProperties | json-tools/scripts/probe.py:40-48 | `(None, [])` exactly when no child is a non-empty list; otherwise the key and list of a child whose list is longest, the first such child |
| JsonProbe.DictCount | json-tools/scripts/probe.py:65 | `dict_count` is the number of dict values, at most their number |
| JsonProbe.DetectLayout | json-tools/scripts/probe.py:51-101 | the record count is the number of records, and the layout is one of the five names |
| JsonProbe.DetectLayoutOrder | json-tools/scripts/probe.py:54-101 | a list is an `array` of its elements; at least 80% dict values give `object-of-objects` with those values; `nested-array` gives a non-empty list that a member holds under the recommended key; `object` holds the object itself; `scalar` exactly for non-containers, with no records |
| JsonProbe.MostlyDictsExamples | json-tools/scripts/probe.py:66 | the ratio test on exact fractions: 4 dicts out of 5 pass, 3 out of 4 do not, and an empty object never does |
| JsonProbe.EmptyKeyIsFalsy | json-tools/scripts/probe.py:76-77 | a longest list under the empty key does not make a `nested-array`, because `""` is falsy: `{"": [1]}` has the layout `object` |
| JsonSchema.InferSchema | json-tools/scripts/schema.py:16-54 | the recursive `infer_schema` computes the schema the specification function defines |
| JsonSchema.ObjectFields | json-tools/scripts/schema.py:21-23 | the dict loop stores every member's schema, inferred one level deeper, under its key |
| JsonSchema.ArrayItemSchema | json-tools/scripts/schema.py:36-51 | the `item_schema` part of the list branch |
| JsonSchema.CountKeys | json-tools/scripts/schema.py:39-41 | `key_counts` counts every key of every record |
| JsonSchema.UpdateCounts | json-tools/scripts/schema.py:41 | `Counter.update` adds the counts of the new keys to those of the old |
| JsonSchema.MergeFields | json-tools/scripts/schema.py:42-48 | the loop over `sorted(key_counts)` builds the merged fields, key by key |
| JsonSchema.MergeEntry | json-tools/scripts/schema.py:44-48 | one turn: `samples[0]` inferred one level deeper, then `presence` when counts are asked for |
| JsonSchema.FirstHolder | json-tools/scripts/schema.py:44-45 | `samples[0]` comes from the first record that has the key |
| JsonSchema.KeyCountIsHolders | json-tools/scripts/schema.py:39-41 | as every dict has distinct keys, a key's count is the number of records holding it |
| JsonSchema.SchemaInputProperties | json-tools/scripts/schema.py:67-70 | the document is replaced only when a path is given and resolves to a non-empty list, and then by that list |
| JsonSchema.SchemaCommand | json-tools/scripts/schema.py:66-71 | `main` infers the schema of the selected document |
| JsonSchema.InferShallow | json-tools/scripts/schema.py:17-18 | a scalar, and anything past the depth limit, is summarised by its tag alone |
| JsonSchema.FieldSchemasProperties | json-tools/scripts/schema.py:21-23 | the fields of a dict are its members in order, each inferred one level deeper |
| JsonSchema.InferObject | json-tools/scripts/schema.py:20-27 | a dict within the depth limit is an `object` whose fields are its keys in order, each inferred one level deeper, with `field_count` exactly when counts are asked for, and nothing else |
| JsonSchema.InferArray | json-tools/scripts/schema.py:29-52 | a list within the depth limit is an `array` with its length, its distinct tags in increasing order, and an item schema exactly when it is non-empty and the depth is positive; for anything but a list of dicts, that schema is the first element's |
| JsonSchema.InferRecords | json-tools/scripts/schema.py:37-49 | for a non-empty list of dicts, the item schema is an `object` whose fields are the merged entries of the sorted distinct keys |
| JsonSchema.MergedEntryProperties | json-tools/scripts/schema.py:43-48 | a merged entry is the schema of the key's value in the first record holding it, with `presence` equal to (records holding the key, records) exactly when counts are asked for |
| JsonSchema.InferNoPresence | json-tools/scripts/schema.py:16-54 | `infer_schema` itself never writes `presence` |
| JsonSchema.Erase | json-tools/scripts/schema.py:25-26 | erasing removes `field_count` and `presence`; it keeps the type, size and item types |
| JsonSchema.CountsOnlyAnnotate | json-tools/scripts/schema.py:25-48 | `--counts` only adds metadata: erasing it from the counted schema gives the schema inferred without counts |
| JsonMerge.ShallowMergeLoop | json-tools/scripts/merge.py:16-20 | the loop gives every object's pairs assigned in turn over `{}` |
| JsonMerge.ShallowMergeHas | json-tools/scripts/merge.py:16-20 | a key is in the shallow merge exactly when some object has it |
| JsonMerge.ShallowMergeLast | json-tools/scripts/merge.py:16-20 | a key holds its value in the last object that has it |
| JsonMerge.ShallowMergeKeys | json-tools/scripts/merge.py:16-20 | the keys are those of the objects, each once, in order of first appearance |
| JsonMerge.ShallowMergeIsUpdate | json-tools/scripts/merge.py:16-20 | updating object by object is one update with all the pairs |
| JsonMerge.DeepMergeValues | json-tools/scripts/merge.py:23-34 | the recursive merge with its loop over the right dict's items computes the deep merge |
| JsonMerge.MergeStep | json-tools/scripts/merge.py:27-30 | one turn: a key already present takes the deep merge of both values, a new key the right value |
| JsonMerge.MergeMembersKeys | json-tools/scripts/merge.py:25-30 | the merged dict has the keys of a plain update |
| JsonMerge.MergeMembersLookup | json-tools/scripts/merge.py:25-30 | a right key takes the deep merge of its left value with its right one (the right value if the left lacks it); any other key keeps its left value |
| JsonMerge.DeepMergeProperties | json-tools/scripts/merge.py:23-34 | dicts: the left keys in order then the new right keys, each right key with the deep merge of both values; lists are concatenated; anything else is replaced by the right value |
| JsonMerge.DeepMergeEmpty | json-tools/scripts/merge.py:23-31 | `{}` is an identity of the deep merge: always on the right, and on the left for a dict with distinct keys |
| JsonMerge.MergeArraysLoop | json-tools/scripts/merge.py:37-52 | the two loops compute `merge_arrays` |
| JsonMerge.ConcatLength | json-tools/scripts/merge.py:38-40 | the concatenation is as long as all arrays together |
| JsonMerge.MergeArraysProperties | json-tools/scripts/merge.py:37-52 | without `unique_by`: the arrays concatenated in order; with it: in order, the first item of every distinct key, one item per key |
| JsonMerge.MissingAndNullCollide | json-tools/scripts/merge.py:45-49 | items that lack the field or hold null under it all have the key None, so of two such items only the first is kept |
| JsonMerge.MergeCommand | json-tools/scripts/merge.py:68-80 | `main` computes the merged document of the chosen mode from the documents of the right kind |
| JsonMerge.DeepAllKeys | json-tools/scripts/merge.py:76-79 | deep mode gives a dict with the keys of the shallow merge |
| JsonMerge.IgnoredDocuments | json-tools/scripts/merge.py:69-76 | a document of the wrong kind for the mode is ignored: removing it changes nothing |
| JsonGroup.ParseAgg | json-tools/scripts/group.py:20-31 | an accepted spec names one of the seven allowed functions |
| JsonGroup.ParseAggProperties | json-tools/scripts/group.py:20-31 | `count` (in any case, with any blanks around it) is the plain count; any other spec without `:` is refused; otherwise it is split at its last `:` and accepted exactly when the lower-cased stripped function is allowed, giving the stripped field and that function |
| JsonGroup.AggSpecsProperties | json-tools/scripts/group.py:95 | no `--agg` gives the plain count; otherwise the specs fail exactly when one of them fails, and give one aggregation per spec, in order |
| JsonGroup.ParseAggSpecs | json-tools/scripts/group.py:95 | the comprehension over the `--agg` values computes the aggregation list |
| JsonGroup.KeyPart | json-tools/scripts/group.py:38-43 | a key part is never a dict or a list, and a scalar is its own key part |
| JsonGroup.BuildGroupKey | json-tools/scripts/group.py:34-44 | the loop of `group_key` computes the key |
| JsonGroup.GroupKeyProperties | json-tools/scripts/group.py:34-44 | one key entry per by-field, never a dict or a list, and the field's first value when that is a scalar |
| JsonGroup.KeyPartOrderFree | json-tools/scripts/group.py:42 | `sort_keys=True`: dicts that differ only in key order give the same key part |
| JsonGroup.MinInt | json-tools/scripts/group.py:69-70 | `min` over ints is one of them and no greater than any |
| JsonGroup.MaxInt | json-tools/scripts/group.py:71-72 | `max` over ints is one of them and no less than any |
| JsonGroup.ComputeAggregate | json-tools/scripts/group.py:47-75 | `compute_agg`, with its `unique` loop, computes the aggregation the specification function defines |
| JsonGroup.CountListUnique | json-tools/scripts/group.py:49-61 | `count` is the number of values, `list` the values; `unique` is a duplicate-free subsequence holding every value, in first-occurrence order, and the values themselves when they are distinct |
| JsonGroup.NumericIgnoresOthers | json-tools/scripts/group.py:63-75 | the numeric functions see only the numbers (bools excluded), give None without numbers, and an unknown function gives None |
| JsonGroup.IntAggregates | json-tools/scripts/group.py:67-72 | over ints, `sum` is their sum and `min`/`max` the least/greatest number among the values |
| JsonGroup.SumSkipsBools | json-tools/scripts/group.py:64 | `[true, 2, "3"]` sums to 2, and `[true, "3"]` has no minimum |
| JsonGroup.AggValues | json-tools/scripts/group.py:118-122 | the collected values are no more than the records and are never None |
| JsonGroup.CollectAggValues | json-tools/scripts/group.py:118-122 | the loop computes the collected values |
| JsonGroup.AggValuesFilter | json-tools/scripts/group.py:118-122 | the values are the records' first values for the field, in order, with the Nones dropped |
| JsonGroup.AggValuesExact | json-tools/scripts/group.py:118-122 | a value is collected exactly when it is not None and is some record's first value for the field |
| JsonGroup.KeyColumns | json-tools/scripts/group.py:112-113 | `zip` pairs the by-fields with the key entries, as far as the shorter goes |
| JsonGroup.AggColumns | json-tools/scripts/group.py:115-124 | every aggregation column name has a `:` |
| JsonGroup.AssignKeyColumns | json-tools/scripts/group.py:111-113 | the loop assigns the key columns in order on an empty row |
| JsonGroup.AssignAggColumns | json-tools/scripts/group.py:115-124 | the loop assigns the aggregation columns in order, skipping the plain count |
| JsonGroup.BuildGroupRow | json-tools/scripts/group.py:111-124 | the loop body builds the group's row |
| JsonGroup.RowCountIsGroupSize | json-tools/scripts/group.py:114 | a row's `count` is its group's size, whatever the by-fields are called |
| JsonGroup.RowAggregates | json-tools/scripts/group.py:115-124 | a row holds, under `field:func`, that aggregation of the group's collected values |
| JsonGroup.AggColumnsHold | json-tools/scripts/group.py:115-124 | every aggregation other than the plain count gets its column |
| JsonGroup.LabelInjective | json-tools/scripts/group.py:123 | two allowed aggregations with the same label are the same |
| JsonGroup.RowKeys | json-tools/scripts/group.py:110-113 | a by-field that is not `count` and has no `:` holds the record's key part for it |
| JsonGroup.RowKeyColumn | json-tools/scripts/group.py:112-113 | a by-field no later assignment overwrites holds the key's entry for it, whichever of its repetitions wrote it |
| JsonGroup.RowsFor | json-tools/scripts/group.py:110-125 | one row per key, built from that key's group |
| JsonGroup.BuildRows | json-tools/scripts/group.py:110-125 | the row loop over the groups computes those rows |
| JsonGroup.BuildGroupRows | json-tools/scripts/group.py:103-125 | the grouping loop finds the distinct keys in first-occurrence order and the row loop builds their rows |
| JsonGroup.SumCountsRowsFor | json-tools/scripts/group.py:114 | the counts of the rows add up to the sizes of their groups |
| JsonGroup.Group | json-tools/scripts/group.py:78-141 | `main` computes the summary the specification function defines |
| JsonGroup.GroupSummaryErrors | json-tools/scripts/group.py:95 | `main` fails exactly when an `--agg` value is invalid, with that value's message |
| JsonGroup.GroupSummaryProperties | json-tools/scripts/group.py:97-141 | `total_records` is the number of records, `total_groups` the number of distinct keys and of rows, sorting only rearranges rows, and the counts add up to the number of records |
| JsonGroup.LimitProperties | json-tools/scripts/group.py:134-135 | `--top n` keeps the first `max(n, 0)` rows, or all of them when there are fewer; no `--top` keeps every row |
| JsonGroup.SortRowsProperties | json-tools/scripts/group.py:128-131 | the count sort puts larger groups first and keeps equal sizes in their order; the key sort orders by the key tuple and is stable |
| JsonGroup.GroupRowsOrder | json-tools/scripts/group.py:103-110 | before sorting, row `i` is the group of the `i`-th distinct key, in first-occurrence order, and every key has a row |
| JsonDiff.RootOr | json-tools/scripts/diff.py:27 | a change at a value itself is never reported under an empty path |
| JsonDiff.PairLePreorder | json-tools/scripts/diff.py:17 | ordering `(key, value)` pairs by key is a total preorder, so their sort is well defined |
| JsonDiff.NormPairs | json-tools/scripts/diff.py:17 | one `(key, normalised value)` pair per member, in order |
| JsonDiff.NormalizeObject | json-tools/scripts/diff.py:16-17 | a dict normalises to the key-sorted tuple of its normalised pairs |
| JsonDiff.NormPairsKeysDistinct | json-tools/scripts/diff.py:17 | in a dict with distinct keys, two normalised pairs with one key are the same pair |
| JsonDiff.NormalizeKeyOrderFree | json-tools/scripts/diff.py:15-20 | `normalize_for_set` does not depend on the insertion order of a dict's keys |
| JsonDiff.DictMatchesPairList | json-tools/scripts/diff.py:15-20 | `{"a": 1}` and `[["a", 1]]` normalise alike, as both become tuples |
| JsonDiff.NormalizeNumbers | json-tools/scripts/diff.py:15-20 | as set elements `1`, `true` and a float of value 1 are one element, and so are `0.0`, `-0.0` and `0`; the string `"1"` is not the number 1 |
| JsonDiff.FloatEqProperties | json-tools/scripts/diff.py:67 | float `!=` is symmetric; NaN is unequal to everything, itself included; `0.0` equals `-0.0`; any other float equals exactly the floats with its `repr` |
| JsonDiff.KeySetsProperties | json-tools/scripts/diff.py:40-44 | the key lists are the set differences and the intersection, each sorted strictly |
| JsonDiff.RemovedKeys | json-tools/scripts/diff.py:40-41 | one `removed` record per left-only key, in order, with its child path and left value |
| JsonDiff.AddedKeys | json-tools/scripts/diff.py:42-43 | one `added` record per right-only key, in order, with its child path and right value |
| JsonDiff.RemovedElems | json-tools/scripts/diff.py:59-61 | one `removed` record per extra left element, with its index path |
| JsonDiff.AddedElems | json-tools/scripts/diff.py:62-64 | one `added` record per extra right element, with its index path |
| JsonDiff.DiffValues | json-tools/scripts/diff.py:23-68 | `diff_values` appends to `changes` exactly the records of the recursive diff |
| JsonDiff.DiffDicts | json-tools/scripts/diff.py:37-47 | the dict branch appends the records of the diff |
| JsonDiff.AppendRemovedKeys | json-tools/scripts/diff.py:40-41 | the loop appends the `removed` records |
| JsonDiff.AppendAddedKeys | json-tools/scripts/diff.py:42-43 | the loop appends the `added` records |
| JsonDiff.DiffCommon | json-tools/scripts/diff.py:44-46 | the loop appends the records of every common key's recursion, in key order |
| JsonDiff.DiffLists | json-tools/scripts/diff.py:56-65 | the positional list branch appends the records of the diff |
| JsonDiff.DiffPrefix | json-tools/scripts/diff.py:57-58 | the loop appends the records of every common index's recursion |
| JsonDiff.AppendRemovedElems | json-tools/scripts/diff.py:60-61 | the loop appends the `removed` records of the left tail |
| JsonDiff.AppendAddedElems | json-tools/scripts/diff.py:63-64 | the loop appends the `added` records of the right tail |
| JsonDiff.DiffSelf | json-tools/scripts/diff.py:23-68 | a document without NaN has no differences from itself, in either list mode |
| JsonDiff.NanAndZeros | json-tools/scripts/diff.py:67-68 | a NaN compared with itself gives one `changed` record; `0.0` against `-0.0` gives none |
| JsonDiff.NanMember | json-tools/scripts/diff.py:44-68 | `{"a": NaN}` diffed with itself reports `a` as changed |
| JsonDiff.DiffScalarsAndTypes | json-tools/scripts/diff.py:24-68 | values of different kinds give exactly one `type_change` with two different tags; scalars of one kind give one `changed` record exactly when Python's `!=` holds: floats by value (NaN unequal to itself, `0.0` equal to `-0.0`), other scalars by value |
| JsonDiff.DiffIgnoreOrder | json-tools/scripts/diff.py:50-55 | under `--ignore-order` two lists give at most one record, an `array_set_change` exactly when their sets of normalised elements differ, numbers compared by value |
| JsonDiff.IgnoreOrderNumbers | json-tools/scripts/diff.py:50-55 | under `--ignore-order` `[1]`, `[true]`, `[1.0]` and `[1, 1]` are the same set, and so are `[0.0]` and `[-0.0]`; `["1"]` against `[1]` is an `array_set_change` |
| JsonDiff.DiffDictOrder | json-tools/scripts/diff.py:37-47 | two dicts give the removed records of the left-only keys, the added records of the right-only keys, then the common keys' records, each group in strictly increasing key order |
| JsonDiff.DiffListTail | json-tools/scripts/diff.py:56-65 | two lists give the records of their common indices, then one record per extra element of the longer list, `removed` or `added` |
| JsonDiff.ChangeLine | json-tools/scripts/diff.py:75-88 | every text line starts with `+`, `-` or `~` |
| JsonDiff.ToTextEmptyIff | json-tools/scripts/diff.py:71-89 | the text report says `No differences.` exactly when there are no changes |
| JsonDiff.DiffReport | json-tools/scripts/diff.py:109 | `change_count` is the number of changes |
| JsonDiff.DiffDocuments | json-tools/scripts/diff.py:101-109 | `main` diffs the documents from the root with no changes to start with |
| JsonDiff.DiffReportProperties | json-tools/scripts/diff.py:23-109 | a document without NaN diffed with itself reports no change; a root-level type change is reported under `$` |
| JsonExtract.Matched | json-tools/scripts/extract.py:40 | one match is stored bare, several as the list of matches |
| JsonExtract.ExtractItem | json-tools/scripts/extract.py:33-43 | the loop body computes the row's item |
| JsonExtract.ExtractFields | json-tools/scripts/extract.py:30-44 | `extract_fields` gives one item per row, in row order |
| JsonExtract.ExtractCommand | json-tools/scripts/extract.py:58-72 | `main` computes the document the specification function defines |
| JsonExtract.SelectRowsProperties | json-tools/scripts/extract.py:21-27 | the selection is a window of the resolved array: all of it without options, a prefix under `--first` (empty for `--first` at most 0), a suffix under `--last`, and `--last` at most 0 changes nothing |
| JsonExtract.MainRowsProperties | json-tools/scripts/extract.py:61-66 | a list document yields its selection, the window of the list itself without a path; a non-list document that selects nothing is the only row; rows are empty only when a list document selects nothing |
| JsonExtract.FirstZeroKeepsDocument | json-tools/scripts/extract.py:62-64 | `--first 0` on a non-list document makes the whole document the only row |
| JsonExtract.AssignedLookup | json-tools/scripts/extract.py:37-42 | after the field loop a requested field holds its result, and no other key is present |
| JsonExtract.AssignedKeys | json-tools/scripts/extract.py:37-42 | the item's keys are the fields that get an entry, each once, in first-occurrence order |
| JsonExtract.ItemProperties | json-tools/scripts/extract.py:36-42 | a dict row's item holds under every key exactly what the field loop gives it, with its keys in field order |
| JsonExtract.ExtractDocProperties | json-tools/scripts/extract.py:68-71 | the output is a list with one entry per row: the rows themselves without `--fields`, else their items |
| JsonExtract.IncludeMissingKeepsAll | json-tools/scripts/extract.py:41-42 | under `--include-missing` every requested field is present in a dict row's item |
| Conditions.OpAt | json-tools/scripts/filter.py:25 | the alternation picks the first operator, in `EXPR_RE`'s order, that occurs at the position and leaves a non-empty single-line rest; none exactly when none does |
| Conditions.SplitFrom | json-tools/scripts/filter.py:25 | the lazy `(.+?)` takes the shortest field, from the given length on, after which an operator fits |
| Conditions.NoSplitAtEnd | json-tools/scripts/filter.py:25 | `(.+)` needs a non-empty rest, so no split leaves nothing after the operator |
| Conditions.NoSplitPastNewline | json-tools/scripts/filter.py:25 | `.` does not match a newline, so no field runs past one |
| Conditions.SplitStep | json-tools/scripts/filter.py:25 | past a newline-free field, whether the split ends there is decided by the operators alone |
| Conditions.SplitExpr | json-tools/scripts/filter.py:25-50 | a match gives a non-empty field, an operator and a non-empty rest, single-line, that make up the text |
| Conditions.SplitParts | json-tools/scripts/filter.py:50 | the three groups concatenate back to the text |
| Conditions.SplitExprIff | json-tools/scripts/filter.py:25-48 | the expression matches exactly when some field length admits an operator; the field is then the shortest such and the operator the first that fits after it |
| Conditions.AppendAll | json-tools/scripts/filter.py:148-159 | one of `main`'s loops appends one predicate per value, stopping at the first that raises |
| Conditions.ParseAllErr | json-tools/scripts/filter.py:148-159 | an error among the first values is the error of all of them: later values are never parsed |
| Conditions.ParseAllShape | json-tools/scripts/filter.py:148-159 | the list fails exactly when some value fails to parse; otherwise it is the earlier predicates followed by one predicate per value, in order |
| JsonFilter.ParseRhsKeywords | json-tools/scripts/filter.py:29-37 | `true`, `false` and `null` are recognised in any case and with blanks around them |
| JsonFilter.ParseRhsInt | json-tools/scripts/filter.py:38-41 | a rendered integer parses back to that integer |
| JsonFilter.NotKeyword | json-tools/scripts/filter.py:31-37 | text starting with a sign or a digit is none of the keywords |
| JsonFilter.IntToStringShape | json-tools/scripts/filter.py:39-41 | a rendered integer has no dot and no surrounding blanks, so it takes the `int` branch |
| JsonFilter.ParseRhsFallback | json-tools/scripts/filter.py:42-43 | text that is no keyword and that `float`/`int` refuses keeps its text with quotes stripped |
| JsonFilter.Order | json-tools/scripts/filter.py:53-62 | Python's ordering of two values is a sign, or undefined where it raises `TypeError` |
| JsonFilter.LexOrder | json-tools/scripts/filter.py:53-62 | completes Python's `<` for two lists: the order from an index on is a sign, or undefined; `--where` never reaches it, because a parsed right-hand side is never a list |
| JsonFilter.OrderConverse | json-tools/scripts/filter.py:16-23 | swapping the operands negates the ordering and keeps it undefined where it was |
| JsonFilter.HoldsProperties | json-tools/scripts/filter.py:16-23 | on integers the six operators mean what they say; `>` and `>=` are `<` and `<=` with the operands swapped |
| JsonFilter.AnyHolds | json-tools/scripts/filter.py:55-63 | the compare predicate holds exactly when some extracted value satisfies the operator, values whose comparison raises being skipped |
| JsonFilter.AnyContains | json-tools/scripts/filter.py:98-103 | the contains predicate holds exactly when some extracted string contains the substring |
| JsonFilter.CompareCondition | json-tools/scripts/filter.py:46-65 | `compare_condition` succeeds exactly when the stripped expression matches, and then compares the stripped field, with one of the six operators, against the parsed right-hand side; otherwise the message shows the expression as given |
| JsonFilter.CompareConditionParts | json-tools/scripts/filter.py:25-65 | a field without `=!<>` and newlines, an operator and a right-hand side not starting with `=` give back exactly that field, operator and parsed right-hand side |
| JsonFilter.CompareAgeExample | json-tools/scripts/filter.py:25-65 | `--where "age>=30"` compares the field `age` with the int 30 |
| Conditions.SplitExprExact | json-tools/scripts/filter.py:25 | `EXPR_RE` splits a field without operator characters, an operator and a rest not starting with `=` back into those three parts |
| JsonFilter.TypeCondition | json-tools/scripts/filter.py:68-81 | `type_condition` succeeds exactly when the spec has `=` and its stripped tag is allowed, giving the stripped field and tag of the first split; a spec without `=` fails with the `field=typename` message; an unknown tag fails with the message that lists the allowed tags |
| JsonFilter.ContainsCondition | json-tools/scripts/filter.py:92-105 | `contains_condition` succeeds exactly when the spec has `:`, with the stripped field and the unstripped substring after the first `:` |
| JsonFilter.RegexCondition | json-tools/scripts/filter.py:108-125 | `regex_condition` succeeds exactly when the spec has `:`, with the stripped field and the pattern after the first `:` |
| JsonFilter.ConditionMeaning | json-tools/scripts/filter.py:77-103 | a type condition holds exactly when some extracted value has the tag, a contains condition when some extracted string contains the substring, and `--not-exists` is the negation of `--exists` on the stripped path |
| JsonFilter.BuildConditions | json-tools/scripts/filter.py:147-159 | `main`'s loops compute the predicate list |
| JsonFilter.OptionErrors | json-tools/scripts/filter.py:150-159 | the exists options never fail and give one predicate per path; a `--type` value fails exactly when it lacks `=` or names an unknown tag; a `--contains` or `--regex` value exactly when it lacks `:` |
| JsonFilter.FilterRowsProperties | json-tools/scripts/filter.py:161-169 | without predicates the rows pass unchanged; otherwise the output is a subsequence of the rows holding exactly the rows that meet all predicates, or any of them under `--or` |
| JsonStats.StatsJson | json-tools/scripts/stats.py:68-81 | an entry starts with `presence`, `types` and `unique_values`, has `top_values` exactly when no value is a container, and `numeric` exactly when some value is a number |
| JsonStats.CollectCandidates | json-tools/scripts/stats.py:51-54 | the loop collects the keys of every dict record |
| JsonStats.SelectFields | json-tools/scripts/stats.py:49-55 | the selected fields are the `--fields`, else the sorted candidates |
| JsonStats.GatherField | json-tools/scripts/stats.py:59-65 | the loop gathers every extracted value and counts the records with at least one |
| JsonStats.GatherStep | json-tools/scripts/stats.py:61-65 | one record adds its extracted values, and one to `presence` when it has any |
| JsonStats.FieldEntry | json-tools/scripts/stats.py:59-81 | the loop body builds one field's entry |
| JsonStats.AssignField | json-tools/scripts/stats.py:78-81 | one turn stores the next field's entry |
| JsonStats.StatsFields | json-tools/scripts/stats.py:57-81 | the field loop builds `field_stats` |
| JsonStats.StatsCommand | json-tools/scripts/stats.py:44-88 | `main` computes the document the specification function defines |
| JsonStats.SelectedFieldsProperties | json-tools/scripts/stats.py:49-55 | without `--fields`, the fields are exactly the keys of the dict records, in strictly increasing order; with them, the requested fields |
| JsonStats.PresenceProperties | json-tools/scripts/stats.py:59-65 | `presence` is at most the number of records and of values, zero exactly when no value is found, and the number of values for a path without `*` |
| JsonStats.GatheredFrom | json-tools/scripts/stats.py:61-65 | every gathered value was extracted from some record |
| JsonStats.UniqueValuesProperties | json-tools/scripts/stats.py:66-71 | `unique_values` is the number of distinct frequency keys, at most the number of values and zero exactly without values |
| JsonStats.TopValuesProperties | json-tools/scripts/stats.py:67-77 | `top_values` is left out exactly when some value is a container; otherwise it holds `min(max(top, 0), unique_values)` pairs of the frequency table, by non-increasing count |
| JsonStats.NumbersProperties | json-tools/scripts/stats.py:23-81 | `numeric` is present exactly when some value is a number (not a bool), and counts the numbers |
| JsonStats.FieldsProperties | json-tools/scripts/stats.py:57-81 | `fields` holds every selected field once, in order, each with its entry |
| JsonSort.KeyProperties | json-tools/scripts/sort.py:19-31 | a missing or null field sorts as `""` in text mode and `-inf` in numeric mode; a string sorts as itself, or under `--numeric` as its `float()` (`parseFloat`), `-inf` when that refuses it; bools are `1.0` and `0.0`; an int is its `float()` (`intToFloat`, rounding to a double) and raises exactly when that overflows; only an int can raise; a container sorts as `-inf`; nothing sorts below `-inf` |
| JsonSort.NumericKeyExamples | json-tools/scripts/sort.py:24 | two ints that round to the same double (2^53 + 1 and 2^53) get equal numeric keys, so they keep their input order; `float("inf")` sorts above the number 5 |
| JsonSort.OverflowsIff | json-tools/scripts/sort.py:50 | the sort raises exactly when the key of some field of some record raises |
| JsonSort.RecordRaisesIff | json-tools/scripts/sort.py:31 | one record's key tuple raises exactly when one of its fields does |
| JsonSort.SortText | json-tools/scripts/sort.py:50 | the text-mode sort is a rearrangement of the records (same multiset) |
| JsonSort.SortNumeric | json-tools/scripts/sort.py:50 | the numeric-mode sort is a rearrangement of the records (same multiset) |
| JsonSort.SortRecords | json-tools/scripts/sort.py:44-50 | in either mode, the sorted output is a rearrangement of the records (same multiset) |
| JsonSort.SortDoc | json-tools/scripts/sort.py:44-51 | `main` fails with `OverflowError` exactly when `--numeric` is given and some key overflows; otherwise it writes the sorted records as an array |
| JsonSort.TextSortProperties | json-tools/scripts/sort.py:44-50 | text mode rearranges the records into ascending (descending under `--desc`) order of their key tuples, keeping equal keys in input order |
| JsonSort.NumericSortProperties | json-tools/scripts/sort.py:44-50 | where no key raises, numeric mode does the same with keys compared as floats, `-inf` below every number and `inf` above |
| JsonSort.NoFieldsKeepsOrder | json-tools/scripts/sort.py:30-31 | a `--by` naming no field gives every record the key `()`, so text mode keeps the input order |
| JsonSort.NoFieldsKeepsOrderNumeric | json-tools/scripts/sort.py:30-31 | with no `--by` field, numeric mode keeps the input order too |
| JsonSort.DescIsReversedAsc | json-tools/scripts/sort.py:50 | records with distinct text keys come out of `--desc` in the reverse of the ascending order |
| JsonTransform.FlattenRows | json-tools/scripts/transform.py:27 | the comprehension flattens every record, wrapping a scalar as `{"value": row}` |
| JsonTransform.CollectKeys | json-tools/scripts/transform.py:28-31 | the loop collects the keys of every flattened record |
| JsonTransform.WriteRows | json-tools/scripts/transform.py:36-39 | the loop writes every record's value per column |
| JsonTransform.JsonToCsv | json-tools/scripts/transform.py:25-38 | `json_to_csv` computes the table the specification function defines |
| JsonTransform.MainDataProperties | json-tools/scripts/transform.py:73-75 | the array path narrows the data only to a non-empty resolved list |
| JsonTransform.ColumnsProperties | json-tools/scripts/transform.py:28-33 | a given `--columns` is the header; otherwise the header holds every flattened key once, in strictly increasing order, and nothing else |
| JsonTransform.RowsProperties | json-tools/scripts/transform.py:26-39 | one written record per input record, each with one value per column: its flattened value under that key, or None |
| JsonTransform.ScalarDocument | json-tools/scripts/transform.py:26-33 | a scalar document becomes the single column `value` holding it |
| CsvCommon.FilterComment | csv-tools/scripts/common.py:26-36 | the loop of `_lines_filter_comment` computes the comment-free lines |
| CsvCommon.CommentFreeProperties | csv-tools/scripts/common.py:26-36 | with a comment marker, the kept lines are a subsequence holding every non-comment line and no comment line, and kept and dropped lines add up to all of them |
| CsvCommon.BlankRowIff | csv-tools/scripts/common.py:39-41 | a row is blank exactly when every cell is whitespace only; the empty row is blank |
| CsvCommon.FirstQualifying | csv-tools/scripts/common.py:58-61 | the first width in `most_common()` order whose count reaches the minimum, none exactly when no count does |
| CsvCommon.FindWidth | csv-tools/scripts/common.py:64-66 | the scan stops at the first row of the width, or at the end |
| CsvCommon.FirstWithWidth | csv-tools/scripts/common.py:64-67 | the first row of the width when there is one, else 0 |
| CsvCommon.FirstWithWidthAt | csv-tools/scripts/common.py:64-67 | a position that no earlier row of the width precedes is the one the scan returns |
| CsvCommon.HeaderIndex | csv-tools/scripts/common.py:44-67 | `_find_header_row` returns a row of the list |
| CsvCommon.FindHeaderRow | csv-tools/scripts/common.py:44-67 | the two loops of `_find_header_row` compute the header index |
| CsvCommon.ScanForWidth | csv-tools/scripts/common.py:64-67 | the second loop finds the first row of the width, else 0 |
| CsvCommon.BestWidthIsMode | csv-tools/scripts/common.py:55-63 | whatever the minimum is, the chosen width is the first entry of `most_common()` |
| CsvCommon.WidthHasRow | csv-tools/scripts/common.py:52-55 | every counted width belongs to some row |
| CsvCommon.HeaderIndexProperties | csv-tools/scripts/common.py:44-67 | when some row is not blank, the header is the first row whose width is the modal width of the non-blank rows, the first such width to reach the top count |
| CsvCommon.ZipNProperties | csv-tools/scripts/common.py:147 | zipping a prefix keys the record by those names, each holding the cell of its last occurrence |
| CsvCommon.ZipRowProperties | csv-tools/scripts/common.py:147 | a record has the header names as keys, each with the cell of its last column of that name |
| CsvCommon.ColNames | csv-tools/scripts/common.py:137-138 | without a header there is one `colN` name per cell of the first row |
| CsvCommon.DropBlankLines | csv-tools/scripts/common.py:103-104 | after the loop no leading line is whitespace only |
| CsvCommon.DropBlankRows | csv-tools/scripts/common.py:120-121 | after the loop no leading row is blank |
| CsvCommon.HeaderSplit | csv-tools/scripts/common.py:125-140 | the data rows are the rows after the header position |
| CsvCommon.HeaderSplitDetected | csv-tools/scripts/common.py:131-135 | with a header and no skipped lines, the header is the detected row and the data rows follow it |
| CsvCommon.ChooseHeader | csv-tools/scripts/common.py:125-140 | the branch computes the header, the data rows and the 1-based header position |
| CsvCommon.ZipAll | csv-tools/scripts/common.py:145-147 | one record per row, each the zip of the header with that row |
| CsvCommon.ZipAllSnoc | csv-tools/scripts/common.py:146-147 | one more row appends its record |
| CsvCommon.ZipRows | csv-tools/scripts/common.py:145-147 | the loop computes the records |
| CsvCommon.ShapeLoaded | csv-tools/scripts/common.py:125-149 | the header choice and the width filter compute the shaped table |
| CsvCommon.LoadCsv | csv-tools/scripts/common.py:90-149 | `load_csv` computes the table the specification function defines, early returns included |
| CsvCommon.ShapeRowsProperties | csv-tools/scripts/common.py:125-149 | each record zips the columns with a row after the header of exactly their width, keeping those rows in order; the header is `col0..` without a header, the first row after skipped lines, else the detected row |
| CsvCommon.SniffType | csv-tools/scripts/common.py:167-177 | `empty` exactly for a blank cell, and always one of the three tags |
| CsvCommon.CollectNums | csv-tools/scripts/stats.py:32-39 | the loop keeps, stripped and in order, the non-blank cells `float()` accepts |
| CsvCommon.ParseDelimiter | csv-tools/scripts/common.py:180-184 | the result is a tab exactly for `\t`, `tab` or a tab itself, and otherwise the argument |
| CsvCommon.ParseDelimiterIdempotent | csv-tools/scripts/common.py:180-184 | parsing a parsed delimiter keeps it |
| CsvCommon.PresentProperties | csv-tools/scripts/sort.py:61 | the filter keeps, in request order, exactly the requested columns that exist, all of them when all exist |
| CsvCommon.ByColumns | csv-tools/scripts/sort.py:60-63 | the by-columns are always columns of the table |
| CsvCommon.SelectColumns | csv-tools/scripts/extract.py:49-52 | the selected columns are always columns of the table |
| CsvCommon.ColumnFallbacks | csv-tools/scripts/sort.py:61-63 | with no existing requested column, the by-columns are the first column and the selection all columns; each is empty only for a table without columns |
| CsvCommon.SelectedProperties | csv-tools/scripts/stats.py:67-70 | no `--fields` and an empty one both select all columns; the selection is columns of the table, empty only without columns |
| CsvCommon.Project | csv-tools/scripts/extract.py:59 | a projected row holds exactly the given columns, each with the row's cell or `""` |
| CsvCommon.ProjectOwnColumns | csv-tools/scripts/extract.py:59 | projecting a row onto its own columns gives it back |
| CsvCommon.RowKeyProperties | csv-tools/scripts/sort.py:28-38 | a text key has one entry per key column, the stripped cell, `""` for a missing column |
| CsvExtract.ExtractTableProperties | csv-tools/scripts/extract.py:49-59 | the output columns are the existing requested ones, else all; the rows are the `--first`/`--last` window, each holding exactly the output columns; `--last` at most 0 changes nothing |
| CsvExtract.ProjectAll | csv-tools/scripts/extract.py:59 | every row of the window is projected onto the output columns |
| CsvExtract.ExtractIdentity | csv-tools/scripts/extract.py:49-59 | with no option, a loaded table comes out unchanged |
| CsvSort.SortRowsProperties | csv-tools/scripts/sort.py:65-69 | the rows are rearranged in ascending (descending under `--desc`) order of their stripped key cells, equal keys in input order |
| CsvSort.SortTableProperties | csv-tools/scripts/sort.py:60-72 | the output keeps the columns and rearranges the rows; the by-columns are the existing requested ones, else the first column |
| CsvSort.DescIsReversedAsc | csv-tools/scripts/sort.py:65-69 | rows with distinct keys come out of `--desc` in the reverse of the ascending order |
| CsvDiff.KeyColumns | csv-tools/scripts/diff.py:48 | key columns exist exactly when `--key` is non-empty, one stripped part per comma-separated part (empty parts kept), so never an empty list |
| CsvDiff.EmitRemoved | csv-tools/scripts/diff.py:57-58 | the loop reports, each once, exactly the keys of the left only, with their left row |
| CsvDiff.EmitAdded | csv-tools/scripts/diff.py:59-60 | the loop reports, each once, exactly the keys of the right only, with their right row |
| CsvDiff.EmitChanged | csv-tools/scripts/diff.py:61-64 | the loop reports, each once, exactly the shared keys whose rows differ, with both rows |
| CsvDiff.KeyedDiff | csv-tools/scripts/diff.py:52-64 | the keyed branch reports every keyed change exactly once: removed rows first, then added rows, then changed rows |
| CsvDiff.KeyedProperties | csv-tools/scripts/diff.py:53-64 | a table diffed by key with itself reports nothing; a key on the left only is reported exactly once, as removed with its row |
| CsvDiff.ChangedRows | csv-tools/scripts/diff.py:67-69 | exactly the common indices whose rows differ are reported as changed, with both rows |
| CsvDiff.RemovedRows | csv-tools/scripts/diff.py:70-72 | one `removed` record per extra left row, with its index |
| CsvDiff.AddedRows | csv-tools/scripts/diff.py:73-75 | one `added` record per extra right row, with its index |
| CsvDiff.CompareRows | csv-tools/scripts/diff.py:67-69 | the loop over the zipped rows computes the changed records |
| CsvDiff.AppendRemovedRows | csv-tools/scripts/diff.py:71-72 | the loop appends the `removed` records |
| CsvDiff.AppendAddedRows | csv-tools/scripts/diff.py:74-75 | the loop appends the `added` records |
| CsvDiff.OrderDiff | csv-tools/scripts/diff.py:65-75 | the row-order branch computes the positional changes |
| CsvDiff.OrderProperties | csv-tools/scripts/diff.py:65-75 | identical tables give no change; one `changed` record exactly per differing common index; one `removed` or `added` record per extra row of the longer table |
| CsvDiff.NoChangedRows | csv-tools/scripts/diff.py:67-69 | equal rows give no `changed` record |
| CsvDiff.DiffTables | csv-tools/scripts/diff.py:48-91 | `change_count` is the number of changes; by key the changes are exactly the keyed ones, each once; otherwise the positional ones |
| CsvFilter.CompareCondition | csv-tools/scripts/filter.py:42-55 | `compare_condition` succeeds exactly when the stripped expression matches, and then compares the stripped column, with one of the six operators, against the unquoted right-hand side; otherwise the message shows the `repr` of the expression |
| CsvFilter.CompareConditionParts | csv-tools/scripts/filter.py:25-55 | a field without `=!<>` and newlines, an operator and a right-hand side not starting with `=` give back exactly that column, operator and unquoted right-hand side |
| CsvFilter.CompareAgeExample | csv-tools/scripts/filter.py:25-55 | `--where "age>=30"` compares the column `age` with the text `30` |
| Text.StrRepr | csv-tools/scripts/filter.py:45 | `{expr!r}` is the text between two equal quotes, double exactly when the text has a single quote and no double quote |
| Text.PlainRepr | csv-tools/scripts/filter.py:45 | printable ASCII text without a backslash is quoted as it is |
| Text.ReprNewline | csv-tools/scripts/filter.py:45 | a newline inside the expression is written as the escape `\n` |
| CsvFilter.StrippedSet | csv-tools/scripts/filter.py:59 | the value set holds exactly the stripped values |
| CsvFilter.InCondition | csv-tools/scripts/filter.py:112-116 | `--in` succeeds exactly when it has `:`, with the stripped column and the stripped comma-separated values after the first `:` |
| CsvFilter.ContainsCondition | csv-tools/scripts/filter.py:117-121 | a `--contains` value succeeds exactly when it has `:`, with the stripped column and the unstripped substring |
| CsvFilter.RegexCondition | csv-tools/scripts/filter.py:122-126 | a `--regex` value succeeds exactly when it has `:`, with the stripped column and the pattern |
| CsvFilter.ConditionMeaning | csv-tools/scripts/filter.py:51-69 | `--where` compares the raw cell (`""` when missing) with the right-hand side as strings; `--empty` is the negation of `--non-empty`; `--in` holds exactly when the stripped cell is one of the stripped values |
| CsvFilter.CompareTrichotomy | csv-tools/scripts/filter.py:16-24 | on strings exactly one of `<`, `==`, `>` holds, `<=` is `<` or `==`, and `>=` is `<=` swapped |
| CsvFilter.BuildConditions | csv-tools/scripts/filter.py:109-132 | `main`'s construction of `preds` computes the predicate list, stopping at the first invalid value |
| CsvFilter.OptionErrors | csv-tools/scripts/filter.py:112-132 | an `--in`, `--contains` or `--regex` value fails exactly when it lacks `:`; the column checks never fail |
| CsvFilter.FilterRowsProperties | csv-tools/scripts/filter.py:134-141 | without predicates every row passes; otherwise the output is a subsequence of the rows holding exactly the rows that pass all predicates, or any under `--or` |
| CsvGroup.ParseAgg | csv-tools/scripts/group.py:28-35 | an accepted spec names one of the seven allowed functions |
| CsvGroup.ParseAggProperties | csv-tools/scripts/group.py:28-35 | a spec without `:` is refused, so a bare `count` fails; otherwise it is split at its last `:` and accepted exactly when the lower-cased stripped function is allowed, giving the stripped field and that function |
| CsvGroup.AggSpecsProperties | csv-tools/scripts/group.py:97 | the specs fail exactly when one fails; otherwise one aggregation per spec, in order, each allowed |
| CsvGroup.ComputeAggregate | csv-tools/scripts/group.py:38-70 | `compute_agg`, with its `unique` and `nums` loops, computes the aggregation the specification function defines |
| CsvGroup.CountListUnique | csv-tools/scripts/group.py:39-50 | `count` is the number of values, `list` the values; `unique` is a duplicate-free subsequence holding every value, in first-occurrence order |
| CsvGroup.NumericIgnoresOthers | csv-tools/scripts/group.py:51-61 | the numeric functions see only the cells `float()` accepts, and give None without any |
| CsvGroup.AggValues | csv-tools/scripts/group.py:109 | one value per group row: its stripped cell, `""` when missing |
| CsvGroup.AggColumns | csv-tools/scripts/group.py:108-111 | one column per aggregation, each name with a `:` |
| CsvGroup.AggColumnsSnoc | csv-tools/scripts/group.py:108-111 | one more aggregation appends its labelled column |
| CsvGroup.BuildGroupRow | csv-tools/scripts/group.py:106-111 | the loop body builds the group's row |
| CsvGroup.RowCountIsGroupSize | csv-tools/scripts/group.py:107 | a row's `count` is its group's size |
| CsvGroup.AggColumnsHold | csv-tools/scripts/group.py:108-111 | every aggregation gets its column, a requested `x:count` included |
| CsvGroup.AggColumnsLabels | csv-tools/scripts/group.py:110-111 | a column labelled like an aggregation holds that aggregation's value |
| CsvGroup.RowAggregates | csv-tools/scripts/group.py:108-111 | a row holds, under `field:func`, that aggregation of the group's stripped cells |
| CsvGroup.RowKeys | csv-tools/scripts/group.py:101-106 | a by-column that is not `count` and has no `:` holds the stripped cell of the group's rows |
| CsvGroup.RowsFor | csv-tools/scripts/group.py:104-112 | one row per key, built from that key's group |
| CsvGroup.RowsForStep | csv-tools/scripts/group.py:104-112 | one more key appends its row |
| CsvGroup.BuildRows | csv-tools/scripts/group.py:104-112 | the row loop computes those rows |
| CsvGroup.BuildGroupRows | csv-tools/scripts/group.py:99-112 | the grouping loop finds the distinct keys in first-occurrence order and the row loop builds their rows |
| CsvGroup.SumCountsRowsFor | csv-tools/scripts/group.py:107 | the counts of the rows add up to the sizes of their groups |
| CsvGroup.ByKeyPreorder | csv-tools/scripts/group.py:117 | comparing rows by their key tuple is a total preorder |
| CsvGroup.SortKeyIsGroupKey | csv-tools/scripts/group.py:106-117 | when no by-column is `count` or has a `:`, the key sort compares the group keys themselves |
| CsvGroup.SortRowsProperties | csv-tools/scripts/group.py:114-117 | the count sort puts larger groups first, stably; the key sort orders by the key tuple, stably |
| CsvGroup.Group | csv-tools/scripts/group.py:92-122 | `main` computes the summary the specification function defines |
| CsvGroup.GroupSummaryErrors | csv-tools/scripts/group.py:97 | `main` fails exactly when an `--agg` value is invalid, with that value's message |
| CsvGroup.GroupSummaryProperties | csv-tools/scripts/group.py:92-122 | the by-columns are the existing requested ones, else the first column; `total_records` is the number of rows, `total_groups` the number of distinct keys and of rows; sorting only rearranges rows; the counts add up to the number of rows |
| CsvMerge.AppendRows | csv-tools/scripts/merge.py:43-47 | the inner loop appends one aligned row per row of the file |
| CsvMerge.MergeCsv | csv-tools/scripts/merge.py:28-61 | `main` computes the output columns (the first file's) and the merged rows |
| CsvMerge.AlignedLength | csv-tools/scripts/merge.py:32-47 | before dedup there is one row per input row |
| CsvMerge.AlignedSnoc | csv-tools/scripts/merge.py:32-47 | the rows of one more file come after those of the earlier files |
| CsvMerge.AlignRowProperties | csv-tools/scripts/merge.py:44-47 | whichever branch runs, a loaded row comes out with exactly the output columns, each holding its cell or `""`; with no output columns it is empty |
| CsvMerge.MergeRowsProperties | csv-tools/scripts/merge.py:52-61 | without dedup, all aligned rows file after file; with it, a subsequence keeping, in order, the first row of every distinct stripped key, one row per key |
| CsvMerge.UnknownKeyColumn | csv-tools/scripts/merge.py:52 | a `--unique-by` that is not an output column changes nothing |
| CsvProbe.LineWidths | csv-tools/scripts/probe.py:35-43 | at most one width per line |
| CsvProbe.Head | csv-tools/scripts/probe.py:36 | `filtered[:30]`: a prefix of at most 30 lines, all of them when there are fewer |
| CsvProbe.DelimRank | csv-tools/scripts/probe.py:44-52 | a candidate's rank is at least -1, and -1 exactly when it collects no width (so it is never chosen) |
| CsvProbe.ChooseSnoc | csv-tools/scripts/probe.py:50-52 | one more candidate replaces the best only with a strictly greater rank |
| CsvProbe.CollectWidths | csv-tools/scripts/probe.py:35-43 | the inner loop collects the widths of the scored lines |
| CsvProbe.DetectDelimiterLoop | csv-tools/scripts/probe.py:24-54 | `detect_delimiter`'s nested loops compute the delimiter the specification function defines |
| CsvProbe.LineWidthsProperties | csv-tools/scripts/probe.py:36-43 | every collected width is the tokenizer's width of a non-blank line |
| CsvProbe.LineWidthsBlank | csv-tools/scripts/probe.py:37-38 | blank lines yield no width |
| CsvProbe.ModeProperties | csv-tools/scripts/probe.py:48 | `most_common(1)[0]` is the modal width, the first seen among the most frequent, with its frequency |
| CsvProbe.ModeFacts | csv-tools/scripts/probe.py:48 | the first tally entry that no entry outnumbers is the modal width with its count |
| CsvProbe.ScoreProperties | csv-tools/scripts/probe.py:48-49 | the score is the modal width's frequency times the width, or 0 when the width is at most 1, and never negative |
| CsvProbe.ChooseProperties | csv-tools/scripts/probe.py:31-52 | the loop keeps the first candidate of the highest rank, with that rank |
| CsvProbe.DetectDelimiterProperties | csv-tools/scripts/probe.py:24-54 | the result is always a candidate; `,` when no line remains after comment filtering or every line is blank; otherwise the first candidate of the highest score |
| CsvSchema.ColumnJson | csv-tools/scripts/schema.py:49-52 | an entry starts with `types` and holds nothing else exactly without `--counts` |
| CsvSchema.ScanColumn | csv-tools/scripts/schema.py:42-48 | the inner loop tallies the type of every cell and counts the non-blank cells |
| CsvSchema.ScanStep | csv-tools/scripts/schema.py:45-48 | one more row ticks its cell's type and adds one to `presence` when its cell is not blank |
| CsvSchema.PresenceStep | csv-tools/scripts/schema.py:47-48 | one more row adds one to `presence` exactly when its cell is not blank |
| CsvSchema.ColumnEntry | csv-tools/scripts/schema.py:42-52 | one turn of the column loop builds the column's entry |
| CsvSchema.InferFields | csv-tools/scripts/schema.py:40-53 | the column loop builds `fields` |
| CsvSchema.AssignedPrefixEmpty | csv-tools/scripts/schema.py:40 | before the loop `fields` is empty |
| CsvSchema.SchemaCommand | csv-tools/scripts/schema.py:40-55 | `main` computes the document the specification function defines |
| CsvSchema.EmptyPlusPresence | csv-tools/scripts/schema.py:45-48 | every blank cell is typed `empty` and every other is present, so the two add up to the number of rows |
| CsvSchema.SnocCounts | csv-tools/scripts/schema.py:45-48 | the last row adds one to the `empty` count or to `presence` |
| CsvSchema.ColumnTypes | csv-tools/scripts/schema.py:49 | `types` are exactly the types of the column's cells, each once, in increasing order, none without rows |
| CsvSchema.ColumnCounts | csv-tools/scripts/schema.py:50-52 | with `--counts`, `presence` is (non-blank cells, rows), the type counts are one per type, each the number of cells of that type, adding up to the number of rows |
| CsvSchema.ColumnWithoutCounts | csv-tools/scripts/schema.py:49-52 | without `--counts` an entry has the same `types` and no counts |
| CsvSchema.FieldsProperties | csv-tools/scripts/schema.py:40-53 | `fields` has one entry per distinct column, in column order, each the entry computed from that column's cells |
| CsvStats.StatsJson | csv-tools/scripts/stats.py:77-84 | an entry starts with `presence`, `unique_values` and `top_values`, and has `numeric` exactly when some cell is numeric |
| CsvStats.ColumnEntry | csv-tools/scripts/stats.py:74-85 | one turn of the column loop builds the column's entry |
| CsvStats.AssignColumn | csv-tools/scripts/stats.py:85 | one turn stores the next column's entry |
| CsvStats.StatsFields | csv-tools/scripts/stats.py:72-85 | the column loop builds `field_stats` |
| CsvStats.StatsCommand | csv-tools/scripts/stats.py:67-87 | `main` computes the document the specification function defines |
| CsvStats.PresenceProperties | csv-tools/scripts/stats.py:75 | `presence` is at most the number of rows, and equal to it exactly when no cell is blank |
| CsvStats.UniqueAndTopProperties | csv-tools/scripts/stats.py:76-80 | `unique_values` counts the distinct raw cell texts, zero exactly without rows; `top_values` holds `min(max(0, top), unique_values)` pairs of the tally, by non-increasing count |
| CsvStats.UnstrippedValuesExample | csv-tools/scripts/stats.py:74-76 | `x` and ` x` count as two distinct values |
| CsvStats.NumbersProperties | csv-tools/scripts/stats.py:30-84 | `numeric` exists exactly when some cell is numeric, and counts the numeric cells |
| CsvStats.FieldsProperties | csv-tools/scripts/stats.py:72-85 | `fields` holds each selected column once, in order, with its entry |
| CsvValidate.EmptyIsValid | csv-tools/scripts/validate.py:35-37 | a text without rows gets the `empty file` report |
| CsvValidate.CountsProperties | csv-tools/scripts/validate.py:39-54 | otherwise the expected width is the first row's, records and skipped rows add up to the rows less the header, and the size is passed through |
| CsvValidate.RecordsProperties | csv-tools/scripts/validate.py:40-45 | a record is a counted row of the expected width, a skipped row one of another width; without a header the first row is always a record |
| CsvValidate.ValidityProperties | csv-tools/scripts/validate.py:47-56 | valid exactly when nothing was skipped or the check is not strict; an error exactly when a strict check skipped rows, naming their number |

## Left out

- Reading input and writing output are left out because they are I/O: `load_json`, `read_text`, `load_csv`'s file handling, `write_json` and `write_csv` formatting, printing, and exit codes. `argparse` is left out too; each option is a parameter instead.
- The `csv` module's reader and `str.splitlines` are parameters (`reader`, `splitLines`, and `fieldCount` for the per-line `csv.reader` call in csv probe) because their quoting and line-ending rules are library code.
- `json.loads` is the parameter `loads` because JSON text parsing is library code. The model starts at the parsed value.
- Floats are held as their `repr` text (`JFloat`), because floating-point arithmetic is out of scope. `float()` is a parameter in every module that needs it: `isNumber`, `parseFloat`, `floatRepr` or, for an int under json `sort --numeric`, `intToFloat`. So are the float sums, minima, maxima and means (`floatAgg`). Only integer and boolean arithmetic is modelled exactly.
- `re.search` is the oracle `search`, because regular expressions are out of scope. A pattern that fails to compile is not modelled.
- A dict or list's Python `repr`/`str` is a parameter wherever the source prints one (`reprOf`, `repr`), because Python's `repr` formatting is out of scope.
- `copy.deepcopy` is left out: Dafny values are immutable, so the copy changes nothing the model can observe.
- Python's mixed numeric equality (`1 == True == 1.0`) is left out outside the diff. Equality there is structural, and so is equality of dicts, which is therefore sensitive to member order. This affects the `==`/`!=` filter operators and group keys. The diff does follow Python: it compares scalar floats as Python's `!=` does, and under `--ignore-order` it compares numbers by value (`JsonDiff.FloatEq`, `JsonDiff.Normalize`).
- JsonFilter.Order: orders two integers or booleans, two strings, or two lists. Every other pair counts as a `TypeError`, including any pair with a float, because floats are held as text; Python would compare those numerically.
- JsonGroup.Group: sorts the groups by the parameter `keyLe`. Python's tuple comparison, and the `TypeError` it raises on mixed key types, are not modelled.
- CsvGroup.Group: the same `keyLe` parameter stands for the tuple comparison of the group keys.
- JsonSort.KeyProperties: a numeric key is `-inf`, a finite number or `inf`, never NaN: `parseFloat` cannot return NaN. With a NaN key, the order Python's sort produces depends on which pairs it compares, and on object identity inside tuple comparison, so it is not modelled.
- JsonSort.NumericSortProperties: holds for keys without NaN only, for the same reason.
- CsvSort.SortRows: models text mode only. Under `--numeric` (csv-tools/scripts/sort.py:31-36) a key mixes floats and strings, and whether Python's sort then raises `TypeError` depends on which pairs the sort happens to compare, so numeric mode is left out.
- CsvDiff.KeyedDiff: in keyed mode the source visits keys in `set` iteration order, which Python does not fix. The model proves which keys land in each phase, and that each appears once, but not their order within a phase.
- The text rendering of the csv diff (csv-tools/scripts/diff.py:76-88) and the CSV text that `DictWriter` writes for json `transform` are left out because they are output formatting.
- `json_to_jsonl` and `csv_to_json` of json-tools/scripts/transform.py are left out: they are serialisation and the CSV reader.
- CsvProbe `main` is modelled only as far as `detect_delimiter`. The rest assembles `load_csv` results, and `size_bytes` needs the file's encoding.
- CsvValidate.Validate: the encoded size of the text is the parameter `encodedSize`, because encodings are out of scope.
- The context-only scripts are not part of this model: json-tools' `validate.py` and `flatten.py`, csv-tools' `transform.py`, and `reverse.py` of both families.
- JsonCommon.ParsePath: reads only ASCII `0`-`9` as digits. Python's `\d` in a `str` pattern matches every Unicode decimal digit, so `a[٣]` is the index 3 in the source and the key `٣` here. A table of Unicode digits is out of scope.
- JsonCommon.DigitLen: the same ASCII-only `\d` (json-tools/scripts/common.py:16).
- Text.ParseInt: `int()` also accepts every Unicode decimal digit; the model accepts only ASCII digits, so `--where "x==٣"` compares with the string `٣` instead of the int 3.
- Text.StrRepr: escapes control characters, U+007F to U+00A0 and U+00AD. The non-printable characters above U+00FF, which Python writes as `\u`/`\U` escapes, are written as themselves, because Unicode's printable table is out of scope.
- JsonDiff.Normalize: the value of a finite float is the parameter `floatValue`, because the decimal value of a float is floating-point arithmetic.
- JsonCommon.MatchAt: models the intended reading of `PATH_TOKEN_RE`, not the pattern as written at json-tools/scripts/common.py:16; see "## Findings". `JsonCommon.ParsePathLiteral` models the pattern as written.
- JsonCommon.KeyLen: the key alternative of the intended pattern; as written, the first alternative is one character followed by `]+` (see "## Findings").
- JsonCommon.ExampleBracketKey: holds for the intended pattern; as written, `[x]` matches `x]` and raises IndexError (`JsonCommon.LiteralExamples`).
- JsonCommon.ExampleNegativeIndex: holds for the intended pattern; as written, `[-1]` matches `1]` and raises IndexError (`JsonCommon.LiteralExamples`).
- JsonGroup.ParseAgg: the `Unknown aggregation` message echoes the function lower-cased by `Text.Lower`, which folds only ASCII letters and the Kelvin sign; Python's `lower()` folds all of Unicode, so `x:SÜM` gives `'süm'` there and `'SÜm'` here. The accept/refuse decision is exact, because every allowed name is ASCII.
- CsvGroup.ParseAgg: the same difference in the `Unknown agg:` message.

## Findings

| source | as written | input that shows it | evidently intended | confidence | as-written member | corrected member |
|---|---|---|---|---|---|---|
| json-tools/scripts/common.py:16 | the raw string `r"([^.\\[\\]]+)\|(\\[(\\*\|\\d+)\\])"` doubles every backslash: the first alternative is one character other than `.`, `\` and `[` followed by `]+`, and the pattern has two groups, so `match.group(3)` in `parse_path` raises IndexError on any match | `a.b` gives no tokens, so `extract_values` returns the whole document; `items[0]` and `[-1]` raise IndexError | the pattern `([^.\[\]]+)\|(\[(\*\|\d+)\])`: dot paths with optional array indices and wildcards, as the docstring of `parse_path` (common.py:38) says | high; not executed | JsonCommon.LiteralExamples | JsonCommon.ParseRenderRoundTrip |
