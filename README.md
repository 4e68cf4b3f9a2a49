# Pathfinder target generation, modelled in Dafny

Pathfinder is a command-line enumerator written in Go, in one file (`main.go`). It has two modes:

- `sub` resolves subdomains.
- `dir` requests URL paths.

Both modes start from a target template that holds marker names such as `WL1`. They expand it against wordlists bound with `-w path:MARKER`, and then hand the resulting targets to a pool of workers.

This project models the sequential part of that program and proves what it computes:

- `Expansion` (`expand.dfy`) models `generateTargets`.
  - It substitutes each word of the first marker found for every occurrence of that marker, recursively.
  - It also models the marker-presence scan that chooses between expansion and the compatibility builders.
  - The recursion is proved to terminate when no word can meet a marker name.
  - Under that condition the proofs show that:
    - no output contains a marker;
    - the outputs are the per-word expansions, in word order;
    - with separate markers, the number of outputs is the product of the list lengths of the markers that occur.
- `Compatibility` (`compat.dfy`) models the builders used when the template has no marker:
  - subdomain `word.host`;
  - directory `base/word`;
  - the multiplication of directory targets by the `-f` extensions, base-major.

  The "no marker and no `WL1` list" exit is modelled as `None`.
- `Workers` (`workers.dfy`) models what a worker does around its network call:
  - the DNS name it resolves;
  - the URL it fetches, which is `Compatibility.EnsureScheme` of the job (main.go:364-366);
  - the `-mc`/`-fc`/`-fs` report filter over `containsInt`/`containsInt64`, with the `int64` conversion.
- `Options` (`options.dfy`) models:
  - `parseStringList` and `parseIntList`;
  - the trim-and-drop-blank filter of `readLines`;
  - the `-w` flag type `wordlistFlag`, a class whose `Set` updates its map in place.
- `GoStrings` (`strings.dfy`) and `GoStrconv` (`strconv.dfy`) model the Go library functions the program relies on:
  - `strings.Index`, `Contains`, `ReplaceAll`, `TrimPrefix`, `TrimSuffix`, `TrimSpace`, `Split` and `Join`;
  - `strconv.Atoi` and `strconv.Itoa`.

  Each definition follows Go's own left-to-right algorithm, and lemmas say what it computes:
  - `Index` finds the first occurrence.
  - `ReplaceAll` cuts the string at the successive leftmost occurrences of the pattern (`Pieces`) and writes the replacement between the same pieces that the pattern separated (`ReplaceLockstep`).
  - `Split` and `Join` undo each other.
  - `Atoi` accepts exactly the signed decimal texts of int64 values (`AtoiValue`).

**Map order.** Go keeps the wordlists in a `map[string][]string`. Both `generateTargets` and the marker scan take whichever occurring marker Go's map iteration meets first. Go may pick a fresh iteration order at every `range`: in the scan (main.go:209, 301), in the call of `generateTargets`, and again in each of its recursive calls (main.go:149).

The model replaces the map with an ordered sequence of `(marker, words)` entries, `Expansion.Table`. The *first* occurring entry in that order wins, and the model uses that one order for the scan and for every call. A run of the source that happens to meet the markers in the same order at every `range` is therefore one of the model's runs, for the table in that order. A run that re-orders between calls is not covered directly (see "Left out").

`Lookup` (for `wordlistData["WL1"]`) takes the first entry with the name. When the names are distinct, as map keys are, that is the only such entry.

**The empty marker.** `-w path:` binds the marker name `""`, which `strings.Contains` finds in every string. The model keeps this quirk, because `""` is also the function's "nothing found" sentinel. If that entry is the first to occur, the template is returned unexpanded (`EmptyMarkerPassesThrough`) even when other markers follow.

## Model

| member | source | states |
|---|---|---|
| Expansion.FirstMatch | main.go:148-154 | the chosen entry is the first whose marker occurs in the template and no earlier entry's marker occurs; the table's length means none occurs |
| Expansion.ChooseMarker | main.go:148-154 | the scan loop stops at the first occurring marker (FirstMatch) and reports its name, or `""` when none occurs |
| Expansion.Expand | main.go:147-170 | a template with no marker name in it expands to exactly `[template]` |
| Expansion.PresentShrinks | main.go:163-165 | substituting a word for an occurring non-empty marker strictly shrinks the set of markers that occur, which is why the recursion terminates when words cannot meet markers |
| Expansion.GenerateTargets | main.go:147-170 | the recursive procedure returns exactly the expansion `Expand(template, table)` |
| Expansion.ExpandEachWord | main.go:160-169 | the word loop appends one block per word, in word order: after all words it holds `ExpandWords` over the whole list |
| Expansion.ExpandWord | main.go:163-166 | one iteration replaces every occurrence of the marker by the word and returns the expansion of the new template |
| Expansion.BlockLockstep | main.go:163-166 | the template is rebuilt from the pieces around the chosen marker, and the word's block is the expansion of those same pieces joined by the word: every occurrence gets that one word |
| Expansion.AdminFits | main.go:163-165 | the word `admin` meets the separation condition for the marker `WL1` |
| Expansion.EdgeWordsMeetMarker | main.go:163-165 | the words `NEW` and `1password` fail the separation condition for `WL1`: the `W` of one can begin a `WL1`, the `1` of the other can end one |
| Expansion.ExpandClean | main.go:147-170 | with non-empty marker names and separate words, no output target contains any marker name |
| Expansion.ExpandWordsClean | main.go:163-167 | the same for the targets the word loop gathers |
| Expansion.ExpandWordsMembers | main.go:163-167 | a target comes out of the word loop if and only if it comes out of the iteration for some word |
| Expansion.ExpandEmptyList | main.go:161-169 | when the chosen marker's list is empty, there are no targets at all |
| Expansion.EmptyMarkerPassesThrough | main.go:149-158 | a marker named `""` that is the first to occur makes the sentinel test return the template unexpanded, whatever markers come after it |
| Expansion.ReplaceEffect | main.go:164 | substituting a word removes the chosen marker and leaves every other marker occurring exactly when it did before |
| Expansion.ReplacedProduct | main.go:164-165 | after one substitution the product of list lengths is the product over the markers other than the chosen one |
| Expansion.BlockCount | main.go:164-166 | each word's iteration yields as many targets as the product of the other occurring markers' list lengths |
| Expansion.ExpandWordsCount | main.go:163-167 | `n` iterations of `r` targets each gather `n * r` targets |
| Expansion.ExpandCount | main.go:147-170 | with separate markers and words, the number of targets is the product of the list lengths of the markers occurring in the template (1 when none occurs) |
| Expansion.HasMarkers | main.go:207-214 | the scan is true if and only if some marker name of the table occurs in the target (the same scan is at main.go:300-306) |
| Compatibility.Lookup | main.go:221 | absent exactly when no entry has the name; a result is the list of an entry with that name |
| Compatibility.SubdomainHostSuffix | main.go:222-224 | the host is the target with one of those prefixes removed: `http://`, `https://`, `www.`, each at most once, in that order |
| Compatibility.SubdomainList | main.go:225-227 | one target per word, in word order, target `i` being `words[i] + "." + host` |
| Compatibility.SubdomainTargets | main.go:221-227 | the compatibility loop builds the SubdomainList of the stripped host |
| Compatibility.SubdomainPlan | main.go:216-232 | subdomain mode gives up exactly when the target has no marker and there is no `WL1` list; the word condition is needed only on the marker path |
| Compatibility.BuildSubdomainTargets | main.go:207-232 | the marker scan then expansion or the compatibility loop computes SubdomainPlan |
| Compatibility.PlainSubdomainPlan | main.go:216-227 | the host `example.com` with the `WL1` list `1`, `W` yields `1.example.com` then `W.example.com`, although `W` could not stand for a marker |
| Compatibility.PlainHost | main.go:222-224 | a bare host has no prefix to strip |
| Compatibility.PlainSubdomains | main.go:225-227 | the words `1`, `W` give `1.example.com`, `W.example.com` |
| Compatibility.EnsureScheme | main.go:312-314 | the result starts with `http`; it is the URL itself exactly when the URL already starts with `http`, and `http://` + URL otherwise (the same fix-up each directory worker applies to its job, main.go:364-366) |
| Compatibility.EnsureSchemeIdempotent | main.go:364-366 | the workers' protocol fix-up applied again changes nothing |
| Compatibility.DirectoryBaseShape | main.go:312-315 | the base starts with `http` and is the fixed-up URL with at most one trailing `/` dropped, which it drops when present |
| Compatibility.DirectoryList | main.go:317-320 | one target per word, in word order, target `i` being `base + "/" + words[i]` |
| Compatibility.DirectoryTargets | main.go:312-320 | the compatibility loop builds the DirectoryList |
| Compatibility.DirectoryListSchemed | main.go:312-320 | every directory compatibility target starts with `http`, so the workers' fix-up leaves it unchanged |
| Compatibility.WithExtensionsAt | main.go:330-333 | one base gives one target per extension, in extension order, each `tgt + "." + ext` with one leading `.` of `ext` removed |
| Compatibility.AllWithExtensionsLength | main.go:328-334 | every base with every extension gives the number of bases times the number of extensions targets |
| Compatibility.AllWithExtensionsAt | main.go:328-334 | base `i` with extension `k` is at index `i * E + k`, `E` being the number of extensions: base-major, extension-minor |
| Compatibility.ExtendTargets | main.go:327-337 | the nested loop computes Extend: the combinations when extensions are given, the bases unchanged otherwise |
| Compatibility.ExtendSize | main.go:327-337 | with extensions there are the number of bases times the number of extensions targets, and an empty extension list leaves the targets as they are |
| Compatibility.ExtendShape | main.go:327-337 | base `i` with extension `k` sits at index `i * E + k`, `E` being the number of extensions: base-major, each base with each extension |
| Compatibility.DirectoryPlan | main.go:308-337 | directory mode gives up exactly when the URL has no marker and there is no `WL1` list; the word condition is needed only on the marker path |
| Compatibility.BuildDirectoryTargets | main.go:300-337 | the marker scan, expansion or the compatibility loop, then the extension step, computes DirectoryPlan |
| Compatibility.PlainDirectoryPlan | main.go:308-320 | the URL `example.com` with the `WL1` list `1`, `L1` and no extensions yields `http://example.com/1` then `http://example.com/L1`, although `L1` could not stand for a marker |
| Compatibility.PlainScheme | main.go:312-314 | a bare host gets `http://` in front |
| Compatibility.PlainDirectoryBase | main.go:312-315 | the base of `example.com` is `http://example.com`, with no slash to drop |
| Compatibility.PlainDirectories | main.go:317-320 | the words `1`, `L1` give `http://example.com/1`, `http://example.com/L1` |
| Compatibility.PlainExtension | main.go:327-337 | the extension `.php` is appended with one dot to each target, in order |
| Workers.DnsName | main.go:248-249 | the resolved name is a suffix of the job, no longer than it |
| Workers.DnsNameDropsScheme | main.go:248-249 | a job with `https://` or `http://` in front resolves the bare name, and a job without a scheme resolves as it is |
| Workers.Reported | main.go:381-383 | a response is reported if and only if its code is matched, not named by the code filter and its size not named by the size filter; the emptiness tests change nothing |
| Workers.NothingMatchesEmpty | main.go:381 | with no match codes nothing is reported |
| Workers.FiltersOnlyRemove | main.go:381-383 | with empty filters exactly the matched codes are reported, and filters only take reports away |
| Workers.ContainsInt | main.go:481-488 | the scan is true if and only if the item is in the list |
| Workers.ToInt64 | main.go:492 | the conversion `int64(v)` lands in the int64 range and agrees with `v` modulo 2^64 |
| Workers.ToInt64Exact | main.go:492 | the conversion leaves every value of the int64 range unchanged |
| Workers.ContainsInt64 | main.go:490-497 | the scan is true if and only if some element converted to int64 equals the item |
| Workers.ContainsInt64IsMembership | main.go:490-497 | for a list of Go ints that is plain membership |
| Workers.Classify | main.go:372-383 | a worker reports if and only if the request succeeded and the response passes the filter Reported |
| Options.KeepTrimmedElements | main.go:457-462 | every kept part is non-empty and trimmed, and there are no more of them than parts |
| Options.KeepTrimmedAppend | main.go:457-462 | filtering a concatenation filters each half, so kept parts stay in input order |
| Options.KeepTrimmedSound | main.go:457-462 | every kept string is the trimming of some part |
| Options.KeepTrimmedComplete | main.go:457-462 | every part that does not trim to nothing is kept, trimmed |
| Options.KeepTrimmedMembers | main.go:457-462 | a string is kept if and only if it is the non-empty trimming of some part |
| Options.KeepTrimmedClean | main.go:457-462 | parts that are already trimmed and non-empty are all kept, in order |
| Options.KeepTrimmedIdempotent | main.go:457-462 | filtering twice is filtering once |
| Options.KeepTrimmedAvoids | main.go:457-462 | a character no part contains is in no kept part |
| Options.ParseStringList | main.go:451-464 | the empty string gives no words; otherwise the comma pieces are trimmed and the empty ones dropped (StringList) |
| Options.StringListElements | main.go:451-464 | every listed word is non-empty, trimmed and free of commas |
| Options.StringListJoin | main.go:451-464 | a non-empty list of such words written with commas is read back as the same list |
| Options.FilterLines | main.go:418-423 | the kept lines are the trimmed non-blank lines, in order (KeepTrimmed) |
| Options.KeepIntsInRange | main.go:472-477 | every kept value is a Go int, and there are no more values than parts |
| Options.KeepIntsSound | main.go:472-477 | every kept value is what Atoi reads from some trimmed part |
| Options.KeepIntsComplete | main.go:472-477 | the value of every trimmed part that Atoi accepts is kept |
| Options.KeepIntsMembers | main.go:472-477 | a value is kept if and only if some trimmed part reads as it |
| Options.ParseIntList | main.go:466-479 | the empty string gives no numbers; otherwise the values of the trimmed comma pieces Atoi accepts, in order (IntList) |
| Options.FormatIntClean | main.go:473-474 | the decimal text of a number is trimmed and has no comma |
| Options.ReadsBack | main.go:473-474 | the decimal text of an int survives trimming and Atoi reads it back |
| Options.KeepIntsFormats | main.go:472-477 | the decimal texts of a list of ints read back as that list |
| Options.IntListJoin | main.go:466-479 | a non-empty list of ints written with commas is read back as the same list |
| Options.SplitColon | main.go:36 | `SplitN(value, ":", 2)` gives one or two pieces |
| Options.BindingWithoutColon | main.go:36-41 | a value without a colon binds `WL1` to the whole value |
| Options.BindingAtFirstColon | main.go:36-38 | a value with a colon binds the text after its first colon to the text before it |
| Options.BindingOfPair | main.go:35-44 | `path:MARKER` with a colon-free path binds MARKER, colons and all, to path |
| Options.WordlistFlag.constructor | main.go:79-80 | a new flag holds no bindings |
| Options.WordlistFlag.Set | main.go:35-44 | the value's binding is added, replacing any earlier one for that marker, and every other marker keeps its path |
| GoStrings.Index | main.go:36 | the result is -1 or a position where the pattern fits |
| GoStrings.IndexSpec | main.go:36 | Index finds the first occurrence, and -1 means there is none |
| GoStrings.ContainsSpec | main.go:150 | Contains holds exactly when Index finds something, and exactly when there is an occurrence anywhere |
| GoStrings.ContainsEmpty | main.go:150-156 | every string contains the empty string |
| GoStrings.TrimPrefix | main.go:222-224 | the prefix is removed once when present, and nothing changes otherwise |
| GoStrings.TrimSuffix | main.go:315 | the suffix is removed once when present, and nothing changes otherwise |
| GoStrings.ReplaceCreatesNothing | main.go:164 | replacing by a word that does not interfere with `n` creates no occurrence of `n` |
| GoStrings.ReplaceRemoves | main.go:164 | replacing by a word that does not interfere with the pattern leaves no occurrence of the pattern |
| GoStrings.ReplaceKeeps | main.go:164 | replacing keeps every occurrence of a string that does not interfere with the pattern |
| GoStrings.ReplaceLockstep | main.go:164 | the pieces of a string around the successive leftmost occurrences of the pattern rebuild it when joined by the pattern, none of them holds the pattern, and ReplaceAll is those same pieces joined by the replacement |
| GoStrings.PiecesRebuild | main.go:164 | a string is its pieces around the leftmost occurrences of the pattern joined by the pattern, and no piece holds the pattern |
| GoStrings.HeadFree | main.go:164 | the text before the first occurrence of the pattern does not contain it |
| GoStrings.FirstAfterOfSeparate | main.go:164 | a piece that does not interfere with the pattern cannot be eaten into by the pattern written after it |
| GoStrings.IndexAfter | main.go:164 | in `p + pat + rest` with no occurrence starting inside `p` the first occurrence is the one right after `p` |
| GoStrings.PiecesOfJoin | main.go:164 | pieces joined by the pattern, none of which the pattern can eat into, split back at its occurrences into the same pieces |
| GoStrings.ReplaceJoin | main.go:164 | a text written as such pieces around the pattern is rewritten by ReplaceAll to the same pieces around the replacement |
| GoStrings.TrimLeftSpec | main.go:419 | the left trim is a suffix of the input that does not start with white space |
| GoStrings.TrimLeftCutsSpace | main.go:419 | what the left trim removes is white space |
| GoStrings.TrimRightSpec | main.go:419 | the right trim is a prefix of the input that does not end with white space |
| GoStrings.TrimRightCutsSpace | main.go:419 | what the right trim removes is white space |
| GoStrings.TrimSpaceSpec | main.go:419 | TrimSpace gives a trimmed slice of its input |
| GoStrings.TrimSpaceTrimmed | main.go:458 | TrimSpace leaves no white space at either end |
| GoStrings.TrimSpaceSlice | main.go:458 | TrimSpace returns a contiguous piece of its input |
| GoStrings.TrimSpaceAvoids | main.go:458 | TrimSpace adds no character |
| GoStrings.TrimSpaceOfTrimmed | main.go:473 | TrimSpace leaves a trimmed string unchanged |
| GoStrings.TrimmedIsFixed | main.go:473 | a string is trimmed if and only if TrimSpace leaves it unchanged |
| GoStrings.Split | main.go:455 | splitting always gives at least one piece |
| GoStrings.SplitPartsFree | main.go:455 | no piece holds the separator |
| GoStrings.JoinSplit | main.go:455 | joining the pieces gives back the string |
| GoStrings.SplitFirstPart | main.go:470 | a separator-free piece followed by the separator splits off first |
| GoStrings.SplitWhole | main.go:470 | a separator-free string is one piece |
| GoStrings.SplitJoin | main.go:470 | splitting a join of separator-free pieces gives the pieces back |
| GoStrconv.Atoi | main.go:474 | an accepted value lies in the int range |
| GoStrconv.LeadingZeros | main.go:474 | leading zeros do not change the value of a digit string |
| GoStrconv.DigitsForm | main.go:474 | every digit string is some zeros followed by the canonical decimal digits of its value |
| GoStrconv.AtoiSound | main.go:474 | a text Atoi accepts is an optional sign, zeros and the digits of the value's magnitude, with `-` only for values at most 0 and `+` or no sign only for values at least 0 |
| GoStrconv.AtoiComplete | main.go:474 | Atoi accepts every such signed text of an int64 value and reads that value |
| GoStrconv.AtoiValue | main.go:474 | Atoi reads `v` if and only if `v` is an int64 and the text is an optional sign, any zeros and the decimal digits of the magnitude of `v`, with the sign rule above |
| GoStrconv.AtoiFormatInt | main.go:474 | Atoi reads back every int that Itoa writes |
| GoStrconv.AtoiRejectsNonDigit | main.go:474 | any character other than a digit, save one leading sign, is an error |
| GoStrconv.AtoiNeedsDigits | main.go:474 | the empty string and a lone sign are errors |

## Left out

- I/O has no sequential logic to model and is not part of this model:
  - `main`, the flag sets and their defaults (main.go:58-131);
  - `printBanner` and `printConfig`;
  - verbose and result printing;
  - `openOutputFile`, `closeOutputFile` and `writeToFile`.
- `loadWordlists` (main.go:134-144) and the file side of `readLines` (main.go:409-417, 424) are file I/O.
  - The marker table is given as an `Expansion.Table`.
  - The lines are given as a sequence and then filtered by `Options.FilterLines`.
  - `bufio.Scanner`'s splitting into lines and its read errors are not modelled.
- `net.LookupHost`, `http.Client`, the transport, the TLS settings and the timeout are foreign network calls.
  - A DNS job is modelled only up to the name it resolves (`Workers.DnsName`).
  - An HTTP request is modelled as a given `Workers.Probe`: failed, or a status code and content length.
- The worker goroutines, the `jobs` channel, `sync.WaitGroup` and the `time.Ticker` rate limit are concurrency and timing. The model covers the list of jobs and the decision made for each job, not their interleaving.
- `wordlistFlag.String` (main.go:27-33) only formats the map for display, in Go's map order.
- `os.Exit(1)` after "no markers and no WL1" is modelled as the `None` result of `SubdomainPlan`/`DirectoryPlan`. The message is not modelled.
- Go map iteration order is replaced by the order of the `Table` entries, as explained above.
  - In the source, the marker scan, the call of `generateTargets` and each of its recursive calls iterate separately, and each may meet the markers in a different order.
  - The model fixes one order for all of them.
  - Cleanliness (`ExpandClean`), the count (`ExpandCount`) and the word-order facts are proved for every fixed order. They are not proved for runs whose order changes from one recursive call to the next.
  - With separate markers, such a run yields the same count and clean targets, possibly in another order. That claim is not proved here.
- Expansion.Expand: requires `WordsSeparate`, which the source does not check. Without it, `generateTargets` need not terminate; for example, a word that contains its own marker recurses forever.
  - `WordsSeparate` asks, for every word of every list and every non-empty marker name `m` of the table, that the word does not interfere with `m` (`GoStrings.Interferes`). That rules out four kinds of word:
    - a word that contains `m`;
    - a word contained in `m`, the blank word included;
    - a word longer than some proper suffix of `m` that starts with that suffix;
    - a word longer than some proper prefix of `m` that ends with that prefix.
  - For `m` = `WL1` the excluded words are:
    - `W`, `L`, `1`, `WL`, `L1`, `WL1` and the blank word;
    - any word containing `WL1`;
    - any longer word that starts with `1` or `L1`, such as `1password` (`EdgeWordsMeetMarker`);
    - any longer word that ends with `W` or `WL`, such as `NEW` (`EdgeWordsMeetMarker`).
  - A word such as `admin` is allowed (`AdminFits`).
  - The condition is on the *whole table*, not only on the markers the template holds.
  - `GenerateTargets`, `ExpandEachWord` and `ExpandWord` carry the same precondition.
  - `SubdomainPlan`, `BuildSubdomainTargets`, `DirectoryPlan` and `BuildDirectoryTargets` need it only when the template holds a marker, since only then do they expand. Their requires is `!MarkerFree(target, table) ==> WordsSeparate(table)`, so the compatibility path holds for any wordlists (`PlainSubdomainPlan`, `PlainDirectoryPlan` use the words `1`, `W` and `L1`).
  - Tables whose words break the condition are outside the model, even where the source would terminate.
- Expansion.ExpandCount: also requires the marker names to be non-empty and not to meet one another. Otherwise one substitution can destroy or create another marker, and the product formula fails.
- Workers.Classify: requires the size filter's values to lie in the int range. `parseIntList` only produces such values (`Options.KeepIntsInRange`).
- Strings are modelled as sequences of characters, not the UTF-8 bytes Go works on.
  - Searches, splitting and trimming agree on valid text.
  - `ReplaceAll` with an empty pattern inserts the replacement at every character boundary, as Go does at every rune boundary.
- GoStrconv.Atoi: Go's `int` is taken to be 64 bits wide, and only decimal digits with one optional sign are accepted, as `strconv.Atoi` does. Its error values are collapsed to `None`.
- The default match-code list of `-mc` (main.go:107) is a flag default. It is not proved about as a concrete value; it is an ordinary input of `Options.ParseIntList`.
