# Isuda keyword linking and the access-log report, in Dafny

This project models two parts of the Isuda web application.

The first part is the keyword pattern cache and the keyword linker of the glossary
(`ruby/lib/isuda/web.rb`). The cache is a Redis key, `keyword_pattern`. It maps each
keyword length to the keywords of that length, a `|`-joined list of escaped literals. It is
built from the entry table, patched when a keyword is registered or deleted, and compiled
into one alternation. `htmlify` turns an entry's description into HTML in which every
occurrence of a keyword links to its page. It does this in phases: scan and replace each
match by a placeholder token, escape, swap tokens for anchors, and turn newlines into
breaks.

The second part is the access-log aggregator `sort.rb`. Log rows are grouped by route,
method and status into mutable `Group` objects. The route comes from the `--group` route
patterns of the row's verb. The report lists the groups by a sort key, largest first, cut to
a limit.

Files:

- `wrappers.dfy`: `Option` and `Result`.
- `collections.dfy`: first index, distinctness, counting and reversal helpers.
- `ruby_hash.dfy`: a Ruby `Hash` as an insertion-ordered association list (`[]`, `[]=`,
  `delete`, `keys`).
- `matching.dfy`: `gsub` with an ordered alternation of literals. At the leftmost position
  where some alternative matches, the first one listed wins. An empty match is followed by a
  copied character.
- `keyword_table.dfy`: the length-to-bucket table, its rebuild, add, delete and compile
  steps, and their agreement with the entry table.
- `pattern_store.dfy`: the Redis key as a class with one optional slot, `cached`, and the
  helpers that read and write it.
- `content_linker.dfy`: `htmlify` and the proof that the token detour renders exactly the
  intended HTML.
- `group_option.dfy`: the `--group GROUP_EXPR` values and `options[:group]`.
- `access_log.dfy`: `Group`, `GroupTable` and `to_report_str`.

The rows of the entry table are a parameter (`entries`). So are the log rows, the SHA-1 hex
digest, the path escape, the URL helper (the `Helpers` datatype) and the route matcher
(`Matcher`).

Each `Regexp.escape`d, `|`-joined string is modelled as the sequence of literals it stands
for. Escaping makes every alternative literal, so nothing is lost. The empty string `""` is
the one-alternative bucket `[""]`, which is what the regex engine makes of it.

Whenever the source does something other than what it evidently means, the model has both
versions. The version as written is named `...AsWritten` and comes with a small
counterexample. The corrected version carries the intended property, and the rest of the
model uses it (see "## Left out" and "## Findings").

## Model

| member | source | states |
|---|---|---|
| PatternStore.CachedReadIsStable | ruby/lib/isuda/web.rb:89-97 | Once a read has filled the key, every later read returns the value stored then, whatever its block would compute |
| PatternStore.BindGetKeywordPattern | ruby/lib/isuda/web.rb:153 | A call binds exactly when it passes no positional argument, and otherwise raises ArgumentError; `reset` is the keyword argument given, false by default |
| PatternStore.SpliceAt | ruby/lib/isuda/web.rb:164 | `String#[]=` at an index within the string, or counted from its end, or equal to its length, replaces that one character by the new text, keeping what is before and after; any other index raises IndexError |
| PatternStore.ReadTwice | ruby/lib/isuda/web.rb:89-97 | After one read fills the key, a second read is a hit with the same table, however the rows changed in between |
| PatternStore.KeywordPatternStore.Set | ruby/lib/isuda/web.rb:94 | `redis.set` overwrites the key with the value and replies "OK" |
| PatternStore.BuildFromRows | ruby/lib/isuda/web.rb:184-189 | The loop over the rows computes the fold `Rebuild` of `AddKeyword` over the rows in query order, and each length appears once |
| PatternStore.KeywordPatternStore.InitKeywordPatternAsWritten | ruby/lib/isuda/web.rb:182-191 | Stores the rebuilt table and returns the SET reply "OK" rather than the table |
| PatternStore.KeywordPatternStore.InitKeywordPattern | ruby/lib/isuda/web.rb:182-191 | Stores and returns the rebuilt table, which agrees with the rows (`Coherent`) |
| PatternStore.KeywordPatternStore.GetKeywordPatternAsWritten | ruby/lib/isuda/web.rb:153-157 | A held value is returned unchanged; on an empty key, "OK" is stored over the table and returned |
| PatternStore.KeywordPatternStore.CallGetKeywordPattern | ruby/lib/isuda/web.rb:153-157 | A call with a positional argument raises ArgumentError before the key is read, and the key is unchanged; a call without one is the cache read as written, whose value stays in the key |
| PatternStore.KeywordPatternStore.GetKeywordPattern | ruby/lib/isuda/web.rb:153-157 | Returns `CachedRead` of the slot and the rebuilt table, and leaves that value in the key |
| PatternStore.ColdReadAsWritten | ruby/lib/isuda/web.rb:153-157 | On a fresh key the read as written returns the status "OK", not a table |
| PatternStore.ColdRead | ruby/lib/isuda/web.rb:153-157 | On a fresh key the intended read returns the rebuilt table, which agrees with the rows |
| PatternStore.KeywordPatternStore.ResetAndGetAsWritten | ruby/lib/isuda/web.rb:174-176 | The call `get_keyword_pattern(false)` fails to bind because it passes a positional argument, so `reset_and_get` raises ArgumentError before reading or writing the key, which is left as it was |
| PatternStore.KeywordPatternStore.ResetAndGet | ruby/lib/isuda/web.rb:174-180 | The table read through the cache gets the keyword appended to its length's bucket and is stored and returned; a key holding a status string fails with NotATable and is left alone |
| PatternStore.KeywordPatternStore.AppendAndStore | ruby/lib/isuda/web.rb:177-179 | A raised error passes through and a status string fails with NotATable, leaving the key alone; a table gets the keyword appended to its length's bucket and is stored and returned |
| PatternStore.KeywordPatternStore.DeleteAndResetAsWritten | ruby/lib/isuda/web.rb:159-167 | The length's bucket becomes the surviving keywords of that length, or [""] when none survive, and all other buckets are kept; when the read yields a status string (a cold key gives "OK"), the joined survivors are spliced in at index `length` and stored, or the call raises IndexError and the key keeps the status |
| PatternStore.SpliceIntoReply | ruby/lib/isuda/web.rb:164 | Assigning text at index 0 or -2 of the status "OK" puts it before the "K", at 1 or -1 puts it after the "O", and at 2 appends it |
| PatternStore.ColdDeleteAsWritten | ruby/lib/isuda/web.rb:159-167 | On a fresh key the read yields "OK" and the joined survivors are spliced in as `String#[]=` does: index 0 or -2 gives them followed by "K", 1 or -1 gives "O" followed by them, 2 gives "OK" followed by them, and any other index raises IndexError |
| PatternStore.KeywordPatternStore.DeleteAndReset | ruby/lib/isuda/web.rb:159-167 | The length's bucket becomes the surviving keywords, or is removed when none survive; other buckets are kept and lengths stay distinct |
| PatternStore.KeywordPatternStore.BuildKeywordPatternAsWritten | ruby/lib/isuda/web.rb:169-170 | The call `get_keyword_pattern(reset)` fails to bind because it passes a positional argument, so `build_keyword_pattern` raises ArgumentError for either value of `reset` and the key is left as it was |
| PatternStore.KeywordPatternStore.BuildKeywordPattern | ruby/lib/isuda/web.rb:169-172 | The pattern is `Compile` of the table read through the cache; a status string in the key fails with NotATable |
| PatternStore.RegisterOnColdKey | ruby/lib/isuda/web.rb:174-180 | Registering on a fresh key leaves a table that agrees with the rows, and the new keyword standing alone is then linked whole |
| RubyHash.Get | ruby/lib/isuda/web.rb:177 | `h[k]` is nil exactly when `k` is not a key |
| RubyHash.Put | ruby/lib/isuda/web.rb:188 | `h[k] = v` adds at most one pair |
| RubyHash.PutSpec | ruby/lib/isuda/web.rb:188 | After `h[k] = v`, `k` maps to `v`, other keys keep their values, and a new key is appended after the old ones |
| RubyHash.Delete | ruby/lib/isuda/web.rb:164 | Used only by the corrected delete, which drops an emptied bucket where line 164 assigns ""; the source itself never calls `Hash#delete`. `h.delete(k)` only drops pairs, and at most one |
| RubyHash.DeleteSpec | ruby/lib/isuda/web.rb:164 | For the corrected delete only (the source never calls `Hash#delete`): with distinct keys, after `h.delete(k)` the key is gone, every other key keeps its value and the keys stay distinct |
| KeywordTable.AddKeyword | ruby/lib/isuda/web.rb:186-188 | The bucket of the length becomes the old bucket plus the keyword, or just the keyword; every other bucket is unchanged; a new length is appended last and an existing one keeps its place |
| KeywordTable.Rebuild | ruby/lib/isuda/web.rb:184-189 | The rebuilt table has at most one bucket per row, and it is empty exactly when there are no rows |
| KeywordTable.AddTwiceDuplicates | ruby/lib/isuda/web.rb:177 | Adding the same keyword twice lists it twice: buckets are not de-duplicated |
| KeywordTable.KeywordsOfLength | ruby/lib/isuda/web.rb:161-163 | The query yields exactly the keywords of rows with that length, and nothing when no row has it |
| KeywordTable.RebuildBuckets | ruby/lib/isuda/web.rb:182-191 | After a rebuild each length's bucket is exactly the keywords of that length in query order, and lengths no row has get no bucket |
| KeywordTable.RebuildKeysDistinct | ruby/lib/isuda/web.rb:184-189 | A rebuilt table has each length once |
| KeywordTable.RebuildPlacesEveryKeyword | ruby/lib/isuda/web.rb:182-191 | A keyword is in a length's bucket exactly when a row pairs it with that length, so it is in its own length's bucket and in no other |
| KeywordTable.ReplaceBucketAsWritten | ruby/lib/isuda/web.rb:164 | The length's bucket becomes the survivors, or [""] when there are none; every other bucket is unchanged |
| KeywordTable.ReplaceBucket | ruby/lib/isuda/web.rb:164 | The length's bucket becomes the survivors, or is removed when there are none; every other bucket is unchanged and lengths stay distinct |
| KeywordTable.CompileAsWrittenNewestFirst | ruby/lib/isuda/web.rb:171 | The compiled pattern as written puts the length added last first, numeral and all |
| KeywordTable.AddNewLengthCompilesFirst | ruby/lib/isuda/web.rb:171-177 | A keyword of a new length comes first in the compiled pattern as written, right after its length's numeral |
| KeywordTable.AddNewLengthAppends | ruby/lib/isuda/web.rb:177 | A keyword of a new length goes into a new bucket at the end of the table |
| KeywordTable.SingletonCompilesAsWritten | ruby/lib/isuda/web.rb:171 | A single bucket compiles as written to its numeral followed by its keyword |
| KeywordTable.FlattenPairs | ruby/lib/isuda/web.rb:171 | Flattening the [length, bucket] pairs yields at least one item per pair, the first being the first length's numeral |
| KeywordTable.CompileAsWritten | ruby/lib/isuda/web.rb:171 | The pattern as written is the lone empty alternative exactly when the table is empty; otherwise it starts with the numeral of the length added last |
| KeywordTable.Compile | ruby/lib/isuda/web.rb:171 | Every alternative of the intended pattern is a keyword of the table, and an empty table gives no alternatives |
| KeywordTable.SortByLength | ruby/lib/isuda/web.rb:171 | The buckets reordered by length, longest first, as a permutation of the table |
| KeywordTable.CompileAlternativesAreKeywords | ruby/lib/isuda/web.rb:171 | The intended compiled pattern offers exactly the keywords of the table, and no numerals |
| KeywordTable.CompileLongestFirst | ruby/lib/isuda/web.rb:171 | With well-formed buckets, the intended compiled pattern lists longer keywords before shorter ones |
| KeywordTable.CompiledPatternPrefersLongest | ruby/lib/isuda/web.rb:124 | With the intended pattern, the keyword matched at a position is a longest one that matches there |
| KeywordTable.RebuildIsCoherent | ruby/lib/isuda/web.rb:182-191 | A rebuilt table agrees with the rows it was built from |
| KeywordTable.AddKeepsCoherence | ruby/lib/isuda/web.rb:174-180 | Adding a keyword after inserting its row keeps the table in agreement with the rows |
| KeywordTable.DeleteKeepsCoherence | ruby/lib/isuda/web.rb:159-167 | The corrected delete keeps the table in agreement with the rows when the rows changed only at that length |
| KeywordTable.CoherentIsWellFormed | ruby/lib/isuda/web.rb:186-187 | When every row's length column is its keyword's length, each bucket of an agreeing table holds keywords of its own length |
| KeywordTable.CoherentTableLinksEveryKeyword | ruby/lib/isuda/web.rb:122-129 | With a table that agrees with the rows, every non-empty keyword standing alone is matched whole by the compiled pattern |
| KeywordTable.EmptyTableMatchesNothing | ruby/lib/isuda/web.rb:171 | With no rows, the intended compiled pattern matches nothing in any text |
| KeywordTable.CompileOrderCounterexample | ruby/lib/isuda/web.rb:171 | With "golang" registered before "go", the text "golang" is linked as "go" |
| KeywordTable.CompileNumeralCounterexample | ruby/lib/isuda/web.rb:171 | With only "go" registered, the pattern is ["2", "go"] and the text "2" is linked |
| KeywordTable.EmptyBucketCounterexample | ruby/lib/isuda/web.rb:164 | Deleting the only keyword of a length leaves [""], so a table that agreed with the rows no longer does |
| KeywordTable.EmptyBucketMatchesEverywhere | ruby/lib/isuda/web.rb:164 | The left-over [""] compiles to an empty alternative that matches at every position of "a" |
| KeywordTable.EmptyTableCounterexample | ruby/lib/isuda/web.rb:171 | An empty table compiles as written to "", whose empty alternative matches at every position |
| Matching.FirstMatch | ruby/lib/isuda/web.rb:124 | The alternative chosen at a position is in range and fits in the text |
| Matching.FirstMatchFound | ruby/lib/isuda/web.rb:124 | The alternative chosen at a position occurs there |
| Matching.FirstMatchSpec | ruby/lib/isuda/web.rb:124 | No earlier alternative occurs at that position, and when none is chosen no alternative occurs there |
| Matching.ScanFromCovers | ruby/lib/isuda/web.rb:124 | The matches do not overlap, and together with the copied characters they spell the text from the position on |
| Matching.ScanFrom | ruby/lib/isuda/web.rb:124 | The walk from a position yields at most two pieces per remaining character, plus one |
| Matching.ScanFromFinds | ruby/lib/isuda/web.rb:124 | At the text offset of each piece of the walk from a position: a match is the alternative `FirstMatch` chooses there, and a character copied on its own, other than the one after an empty match, has no alternative matching at its offset |
| Matching.ScanFinds | ruby/lib/isuda/web.rb:124 | Over the whole text: each match occurs at its offset and is the first alternative in pattern order that does, and where a character is copied on its own (not after an empty match) no alternative occurs |
| Matching.Scan | ruby/lib/isuda/web.rb:124 | Putting the matches back in place gives the whole text back |
| Matching.ScanFromHitsAreAlternatives | ruby/lib/isuda/web.rb:124-125 | Every match is one of the pattern's alternatives |
| Matching.ScanFromEmptyPattern | ruby/lib/isuda/web.rb:124 | A pattern with no alternatives matches nothing |
| Matching.FirstMatchIsLongest | ruby/lib/isuda/web.rb:124 | With alternatives listed longest first, the chosen alternative is a longest one that occurs there |
| Matching.StandaloneKeywordMatches | ruby/lib/isuda/web.rb:124 | With alternatives listed longest first, a non-empty keyword standing alone is matched whole |
| ContentLinker.EscapeHtmlChar | ruby/lib/isuda/web.rb:130 | Ordinary characters are kept; special ones become an entity `&...;` without the letter 'i' |
| ContentLinker.EscapeHtmlHasNoDelimiters | ruby/lib/isuda/web.rb:130 | No `<`, `>`, `"` or `'` survives the escape |
| ContentLinker.EscapeHtmlPlain | ruby/lib/isuda/web.rb:130 | A text without special characters is left as it is |
| ContentLinker.EscapeHtmlAppend | ruby/lib/isuda/web.rb:130 | The escape works character by character, so it distributes over concatenation |
| ContentLinker.EscapeHtml | ruby/lib/isuda/web.rb:130 | The escaped text is at least as long as the text, and empty exactly when the text is |
| ContentLinker.ReplaceAll | ruby/lib/isuda/web.rb:135 | Replacing a literal by itself leaves the text unchanged |
| ContentLinker.NewlineToBr | ruby/lib/isuda/web.rb:137 | A text without newlines is left as it is |
| ContentLinker.Token | ruby/lib/isuda/web.rb:126 | Every token begins with the marker "isuda_" |
| ContentLinker.Anchor | ruby/lib/isuda/web.rb:134 | An anchor is a tag: it starts with '<' and ends with '>' |
| ContentLinker.ReplaceTokens | ruby/lib/isuda/web.rb:131-136 | When none of the keys' tokens occurs in the text, the `gsub!` loop leaves it unchanged |
| ContentLinker.Render | ruby/lib/isuda/web.rb:124-137 | The intended rendering has at least one character per piece, and with no match it is the escaped text |
| ContentLinker.ReplaceAllAbsent | ruby/lib/isuda/web.rb:135 | A literal `gsub!` leaves a text in which the pattern does not occur unchanged |
| ContentLinker.DistinctHits | ruby/lib/isuda/web.rb:123-128 | The keys of `kw2hash` are the matched keywords, each once |
| ContentLinker.RecordHit | ruby/lib/isuda/web.rb:127 | Recording a match keeps `kw2hash` mapping each keyword seen so far, once and in order of first match, to its token |
| ContentLinker.TokenizeMatches | ruby/lib/isuda/web.rb:123-129 | The `gsub` block's loop yields the text with each match replaced by its token, and `kw2hash` maps exactly the distinct matched keywords to their tokens |
| ContentLinker.LinkTokens | ruby/lib/isuda/web.rb:131-136 | The `gsub!` loop replaces, key by key in `kw2hash` order, each token by the keyword's anchor |
| ContentLinker.Htmlify | ruby/lib/isuda/web.rb:122-138 | With well-behaved digests it is the intended rendering with every match linked; with no match it is the escaped description with breaks; in every case it is the composition of the steps |
| ContentLinker.TokenShape | ruby/lib/isuda/web.rb:126 | A token is "isuda_" and 40 hex digits: 46 characters, 'i' only first, none of them special to HTML |
| ContentLinker.TokenInjective | ruby/lib/isuda/web.rb:126 | Equal tokens come from equal digests |
| ContentLinker.ReplaceOneKey | ruby/lib/isuda/web.rb:135 | Replacing one keyword's token turns exactly the waiting matches of that keyword into its anchor |
| ContentLinker.ReplaceKeys | ruby/lib/isuda/web.rb:131-136 | Replacing the tokens of distinct keywords one after another turns all their matches into anchors |
| ContentLinker.EscapeTokenized | ruby/lib/isuda/web.rb:124-130 | Escaping leaves the tokens alone and escapes every copied character |
| ContentLinker.PlainWhenNothingMatches | ruby/lib/isuda/web.rb:124-130 | When nothing matches, the token text is the description and `kw2hash` is empty |
| ContentLinker.TokensBecomeAnchors | ruby/lib/isuda/web.rb:122-136 | With well-behaved digests and a description free of "isuda_", the token detour yields exactly the intended rendering |
| GroupOption.WordAt | sort.rb:85 | The leading word is a blank-free prefix, followed by a blank or by the end |
| GroupOption.Words | sort.rb:85 | `split(' ')` yields no more words than the text has characters |
| GroupOption.WordsSpec | sort.rb:85 | `split(' ')` yields non-empty, blank-free words which together are the text without its blanks |
| GroupOption.NoWordsWhenBlank | sort.rb:85 | A value has no words exactly when it has no non-blank character |
| GroupOption.ParseGroupExprSpec | sort.rb:85-86 | A value parses exactly when it has a non-blank character; a lone word is the route pattern for GET, otherwise verb and route pattern are the first two words |
| GroupOption.ParseGroupExpr | sort.rb:85-86 | A value fails exactly when it has no words; the route pattern is one of its words and the verb is one of its words or GET |
| GroupOption.ParseVerbAndPattern | sort.rb:85 | "VERB PATH" gives that verb and route pattern |
| GroupOption.ParseLonePattern | sort.rb:86 | A lone "PATH" gives that route pattern for GET |
| GroupOption.ParseExamples | sort.rb:85-86 | "POST /keyword/:id" and "/stars" parse as (POST, /keyword/:id) and (GET, /stars) |
| GroupOption.ParseBlankExample | sort.rb:85-86 | A value of blanks names no route pattern |
| GroupOption.GroupsOfPerVerb | sort.rb:83-90 | The options parse exactly when every value does; then each verb holds exactly its route patterns in option order, and only verbs that some value names are present |
| GroupOption.GroupsOf | sort.rb:83-90 | When the options parse, every verb present holds at least one route pattern |
| GroupOption.ParseGroups | sort.rb:83-90 | The option handler's loop computes `GroupsOf`, stopping at the first value that names no route pattern |
| GroupOption.FailureSticks | sort.rb:83-90 | Once a value fails to parse, every longer run of values fails with the same error |
| AccessLog.ResolveKey | sort.rb:54-60 | The key carries the row's method and status |
| AccessLog.ResolveKeySpec | sort.rb:54-60 | The route is the URI when no route pattern of the row's verb matches it, and otherwise the first matching one in registration order |
| AccessLog.MeanOf | sort.rb:31 | The mean is NaN exactly for a group without rows; otherwise it times the count gives the total |
| AccessLog.Group.constructor | sort.rb:15-21 | A new group has the given key, no rows, total 0 and no cached average |
| AccessLog.Group.Add | sort.rb:23-28 | The count goes up by one and the total by the row's time; the cached average is dropped, and the group itself is returned |
| AccessLog.Group.AvgTime | sort.rb:30-32 | The result is the mean of the current totals, now cached, whether or not it was cached before |
| AccessLog.StepSpec | sort.rb:49-50 | One row bumps its key's group, creating it when absent and appending it last, and leaves every other group alone |
| AccessLog.Step | sort.rb:49-50 | One row adds at most one group |
| AccessLog.MissingTimeAddsNothing | sort.rb:23-25 | A row without a request time counts as a row and adds nothing to the total, as `nil.to_f` is 0.0 |
| AccessLog.TallySize | sort.rb:45-51 | There are at most as many groups as rows, and no groups exactly when there are no rows |
| AccessLog.TallyStat | sort.rb:45-51 | Each key of some row has a group holding that key, the number of rows with it and their total time; no other key has a group |
| AccessLog.TallyKeys | sort.rb:45-51 | Groups appear in the order their keys are first seen in the rows |
| AccessLog.TallyTotal | sort.rb:45-51 | Every row lands in exactly one group: the counts add up to the number of rows |
| AccessLog.TallyCountsPositive | sort.rb:45-51 | Every group has at least one row, so its average is a number |
| AccessLog.FileNewGroup | sort.rb:49 | A key without a group gets a fresh, empty group filed at the end |
| AccessLog.AddRow | sort.rb:50 | Adding a row changes the group at its position only |
| AccessLog.FileRow | sort.rb:49-50 | After `||=` and `add`, the groups hold the one-row step of their numbers; groups already filed keep their places, and new ones are fresh |
| AccessLog.GroupTable.constructor | sort.rb:45-52 | The table's groups hold exactly `Tally` of the rows; each is new, valid and filed under its own key |
| AccessLog.GroupTable.ReportStr | sort.rb:70-72 | The report is non-increasing in the sort key and lists table groups, none twice; without a limit, or with limit 0, it lists every group |
| AccessLog.SortAscending | sort.rb:71 | `sort_by` yields an ascending permutation |
| AccessLog.RangeSlice | sort.rb:71 | A range from 0 always yields a prefix of the array |
| AccessLog.ReportOrdered | sort.rb:70-72 | The report is non-increasing in the key and is a sub-multiset of the groups |
| AccessLog.Report | sort.rb:71 | The report has at most as many lines as there are groups, and exactly as many without a limit |
| AccessLog.ReportLimit | sort.rb:71 | nil and 0 keep every group in sort order; n >= 1 keeps min(n, size); -m keeps all but the last m; the kept groups are a prefix of the full report |
| AccessLog.LimitSlice | sort.rb:71 | The slice `0..(limit - 1)`, or `0..-1`, keeps the number of items stated for each limit |
| AccessLog.ThreeReports | sort.rb:110-124 | The reports by total time, by average time and by count are each non-increasing in their own key, and without a limit all three list the same groups |

## Left out

- The MySQL and Redis clients, and the queries at `ruby/lib/isuda/web.rb` 161-163 and 183. The rows of the entry table are a parameter.
- The Redis wire form. `redis.set` stores `Hash#to_s`, a string that does not read back as a Hash. The model keeps the table itself in the key, so a string read back from Redis is never indexed. `String#[]=` is modelled only on the status "OK" that the read as written leaves in the key (`SpliceAt`).
- The missing `end` of `def isutar_db` (`ruby/lib/isuda/web.rb` 71-83), which keeps the file as shown from loading. The model reads the helpers as if that method were closed.
- The unused `reset:` keyword of `get_keyword_pattern`. It has no effect: `BindGetKeywordPattern` binds it and the cache read ignores it.
- SHA-1, `Rack::Utils.escape_path` and the `url` helper. They are parameters (`Helpers`), with the stated requirements: hex digests, injective on the pattern's keywords, anchors free of "isuda_".
- `Rack::Utils.escape_html`. It is modelled by its escape table for `& < > " ' /`. Other Rack versions differ.
- The general Onigmo regex engine. Only literal alternation is modelled, which is all the escaped pattern uses.
- Backslash sequences in `gsub!`'s replacement string. Anchors are built from path-escaped keywords, which contain no backslash.
- Concurrency between unicorn workers, which can lose updates to `keyword_pattern`. Calls are modelled one at a time.
- `ContentLinker.Htmlify`: the rendering ensures is stated only under `TokensSafe`. A description that contains "isuda_" can forge a token. This is a precondition on inputs, not a property the source guarantees.
- `KeywordTable.Coherent`: agreement with the rows ignores the order and repetition of keywords in a bucket. After a cold read, `ResetAndGet` lists the newly registered keyword twice.
- `OptionParser`, `--since`, `--match`, `--limit`'s `to_i`, `LTSV.parse`, `Time.parse`, file and STDIN reading, the row filters after `parse`, and `puts`.
- `Mustermann` route matching. It is a parameter (`Matcher`), and a route pattern is its source text.
- Floating point. Request times are whole numbers of one fixed unit, and the mean is a `real`. So float rounding, the `to_s`/`round_to_s` formatting (`sort.rb` 34-41) and the header are left out.
- `AccessLog.GroupTable.ReportStr`: the order of groups with equal keys is not stated. `sort_by` does not promise one, and the model's own tie order is not part of the contract.
- `AccessLog.AvgTimeKey`: the report computes the mean directly instead of through `avg_time`. It therefore does not model `sort_by(&:avg_time)` writing each group's cached average. It sorts a group without rows as 0.0, which never arises because every group of a table has a row (`TallyCountsPositive`).
- `GroupOption.ParseGroupExpr`: a value with no word is a `BlankGroupExpr` error. In the source it reaches `Mustermann.new(nil)`, which raises.
- `AccessLog.GroupTable.ReportStr`: the `@values ||=` memo of `values` is not modelled. Each report reads the groups from the table afresh, which gives the same groups, since nothing changes the table after it is built.
- `PatternStore.KeywordPatternStore.ResetAndGet`: a status string in the key fails with NotATable. In Ruby, `v[length]` on a String reads one character and `v[length] = ...` splices text in or raises IndexError. The intended read always yields a table, so that path is not followed further.
- `PatternStore.KeywordPatternStore.DeleteAndReset`: a status string in the key fails with NotATable in the same way. The splice Ruby would do is modelled only for the version as written (`DeleteAndResetAsWritten`, `ColdDeleteAsWritten`).
- `PatternStore.KeywordPatternStore.BuildKeywordPattern`: a status string in the key fails with NotATable. In Ruby, `to_a` is not a String method, so the call raises NoMethodError.
- `PatternStore.JoinBar`: the keywords spliced into a status string are joined as they are, without `Regexp.escape`.

## Findings

| source | as written | input that shows it | evidently intended | confidence | as-written member | corrected member |
|---|---|---|---|---|---|---|
| ruby/lib/isuda/web.rb:171 | Buckets are compiled in reverse insertion order | "golang" (length 6) registered before "go" (length 2): the text "golang" is linked as "go" | Buckets longest first, so the longest keyword wins | not executed | KeywordTable.CompileOrderCounterexample | KeywordTable.CompiledPatternPrefersLongest |
| ruby/lib/isuda/web.rb:171 | `join` flattens the [length, bucket] pairs, so each length's numeral is an alternative | only "go" registered: the text "2" is linked | Only keywords are alternatives | not executed | KeywordTable.CompileNumeralCounterexample | KeywordTable.CompileAlternativesAreKeywords |
| ruby/lib/isuda/web.rb:164 | With no surviving keyword the bucket becomes "" and stays | deleting "cat", the only length-3 keyword: the pattern gets an empty alternative that matches at every position | Remove the bucket | not executed | KeywordTable.EmptyBucketCounterexample | KeywordTable.DeleteKeepsCoherence |
| ruby/lib/isuda/web.rb:171 | An empty table compiles to "" | no keywords at all: "" matches at every position of any description | An empty table matches nothing | not executed | KeywordTable.EmptyTableCounterexample | KeywordTable.EmptyTableMatchesNothing |
| ruby/lib/isuda/web.rb:190 | `init_keyword_pattern` returns the SET reply, which `cached` stores over the table | the first read on an empty key returns "OK" | Return and keep the table | not executed | PatternStore.ColdReadAsWritten | PatternStore.ColdRead |
| ruby/lib/isuda/web.rb:176 | `get_keyword_pattern(false)` passes a positional argument to a keyword-only method | any call of `reset_and_get` raises ArgumentError | Read the table through the cache | not executed | PatternStore.KeywordPatternStore.ResetAndGetAsWritten | PatternStore.KeywordPatternStore.ResetAndGet |
| ruby/lib/isuda/web.rb:170 | `get_keyword_pattern(reset)` passes a positional argument to a keyword-only method | any call of `build_keyword_pattern` raises ArgumentError | Read the table through the cache | not executed | PatternStore.KeywordPatternStore.BuildKeywordPatternAsWritten | PatternStore.KeywordPatternStore.BuildKeywordPattern |
