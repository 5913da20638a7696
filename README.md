# open-with: the MIME-association engine in Dafny

`open-with` chooses the application that opens a file or URL. It parses freedesktop desktop entries, caches
them, ranks the candidates for a MIME type from the user's `mimeapps.list` associations, and edits and
re-writes that `mimeapps.list`. Around this engine sit a few string utilities: `{name}` templates,
Exec-line field codes, the selector menu markers, MIME glob patterns and regex handlers ordered by
priority.

This project is a Dafny model of that engine, with proofs about the model. There is one module per source
file. `Util` holds the shared string helpers, `Option`/`Result` and sorted map keys.

- **Loops become methods.** Where the source loops or mutates state, the model is a `method` with a
  `while` loop. Its `ensures` ties the result to a specification function: a fold over lines, a fold over
  walk entries, or a first-match search. The promised properties are then lemmas about that function.
- **Classes.** `MemoryCache`, `FileSystemCache`, `TemplateEngine` and `MimeAppsFile` are classes. Their
  fields are the maps the source changes in place.
- **Inputs instead of the outside world.** File contents, directory walks, file-system metadata
  snapshots, the clock, the selector process and regex compilation and matching are all parameters.
- **`MimeAppsFile` edits.** `apply_to_mimes` takes a closure in the source. The model replaces it with an
  `Edit` value: `SetTo`, `AddOne` or `RemoveOne`.

## Model

| member | source | states |
|---|---|---|
| MimeApps.Dedup | src/mimeapps.rs:239-249 | the result has no repeats and holds exactly the elements of the input, and is no longer |
| MimeApps.DedupFirstOrder | src/mimeapps.rs:239-249 | the kept handlers appear in the order of their first occurrences in the input; with the Dedup row this fixes the result as the first occurrences, in input order |
| MimeApps.DedupOfDistinct | src/mimeapps.rs:239-249 | a list without repeats is left as it is |
| MimeApps.DedupIdempotent | src/mimeapps.rs:239-249 | deduplicating twice is deduplicating once |
| MimeApps.DedupList | src/mimeapps.rs:239-249 | the loop with a `seen` list computes `Dedup` |
| MimeApps.SplitOnce | src/mimeapps.rs:260-268 | no split exactly when the separator is absent; otherwise the line is key, separator, value, with no separator in the key |
| MimeApps.StepMeaning | src/mimeapps.rs:50-84 | an unrecognised line keeps the current section; outside a section, blank and `#` lines, and lines without `=`, change neither map; an assignment with no handlers changes nothing; otherwise the key of the current section becomes the deduplicated old list followed by the new handlers, and the other section is untouched |
| MimeApps.Parse | src/mimeapps.rs:50-84 | the line loop with a mutable current section computes the fold over lines |
| MimeApps.HandlersOfJoin | src/mimeapps.rs:260-268 | the value written as `h1;h2;` reads back as the same list |
| MimeApps.EntryLineReadBack | src/mimeapps.rs:102-103 | a written `mime=h1;h2;` line is trimmed, is no header or comment, and splits at its first `=` into the MIME type and the joined list |
| MimeApps.ReadSection | src/mimeapps.rs:87-112 | reading a written section into an empty table of that section yields exactly the written table; an empty table writes nothing |
| MimeApps.ParseSerialize | src/mimeapps.rs:87-112 | for non-empty, deduplicated lists of names without `;`, newlines or surrounding whitespace, parsing what `write` produces gives back both tables |
| MimeApps.StepWellFormed | src/mimeapps.rs:66-76 | every line read keeps both tables well formed: non-empty, deduplicated lists of valid names |
| MimeApps.ParseTextWellFormed | src/mimeapps.rs:50-84 | every parsed text yields well-formed tables |
| MimeApps.Serialize | src/mimeapps.rs:87-112 | the written text is empty exactly when both tables are, and otherwise ends in a newline; its read-back is ParseSerialize |
| MimeApps.ParseWriteParse | src/mimeapps.rs:50-112 | writing a parsed file and parsing it again gives the same tables |
| MimeApps.Without | src/mimeapps.rs:142 | retain drops every occurrence of the handler, and the result contains exactly the other handlers |
| MimeApps.WithoutConcat | src/mimeapps.rs:142 | retain works element by element: removing from `a + b` is removing from `a` followed by removing from `b`, so the kept handlers stay in their original order |
| MimeApps.WithoutOne | src/mimeapps.rs:142 | removing a handler that occurs once, from `a + [h] + b`, leaves exactly `a + b`, so the handler after a removed default becomes the new first |
| MimeApps.WithoutCounts | src/mimeapps.rs:142 | every other handler keeps its number of occurrences, and the removed one has none |
| MimeApps.RemoveAtFirst | src/mimeapps.rs:142 | the handlers before the first occurrence of the removed one are kept as they are, and the rest is filtered |
| MimeApps.RemoveFacts | src/mimeapps.rs:133-143 | removing a handler keeps every other handler's count, is idempotent, changes nothing when the handler is absent, and keeps the handlers before its first occurrence in place |
| MimeApps.ApplyEditMeaning | src/mimeapps.rs:115-143 | set gives the deduplicated list; add leaves a list that already holds the handler as it was and otherwise appends the handler at the end; remove with a handler drops exactly that handler, keeps every other handler with its number of occurrences, leaves a list without it unchanged, and keeps the handlers before its first occurrence in place, in order (WithoutConcat and WithoutOne give the order of the rest); remove with none empties the list; every edit is idempotent |
| MimeApps.EditAllFacts | src/mimeapps.rs:173-176 | the loop over targets edits exactly the target keys, adds the missing ones, and keeps every other key unchanged |
| MimeApps.EditEntry | src/mimeapps.rs:173-176 | the in-place edit of one list computes `ApplyEdit` |
| MimeApps.DropEmpty | src/mimeapps.rs:142 | keeps exactly the keys with non-empty lists, unchanged |
| MimeApps.ResolveTargets | src/mimeapps.rs:179-191 | without expansion, or without `*`, the pattern itself is the single target; with both, the targets are exactly the keys of either table that match the glob |
| MimeApps.Matching | src/mimeapps.rs:183-189 | keeps exactly the keys that match the pattern |
| MimeApps.TargetsNeverEmptyWithoutExpansion | src/mimeapps.rs:167-171 | without expansion there is always a target, so the empty-targets branch cannot be reached |
| MimeApps.EditDefaultsMeaning | src/mimeapps.rs:161-177 | set and add change exactly the resolved targets in `default_apps`; remove also drops every empty list, target or not; every other key is kept |
| MimeApps.SetLiteral | src/mimeapps.rs:115-121 | setting a literal MIME type, even one containing `*`, makes its list the deduplicated handler list and changes no other key |
| MimeApps.RemoveMeaning | src/mimeapps.rs:133-143 | after remove, no target lists the handler, and unsetting drops every target key |
| MimeApps.AddTwice | src/mimeapps.rs:124-130 | for every pattern and either expansion flag, adding a handler a second time leaves the default table as the first add left it |
| MimeApps.NoMatchNoChange | src/mimeapps.rs:179-191 | an expanded `*` pattern that matches no key changes nothing except remove's clean-up of empty lists |
| MimeApps.SetThenRemove | src/mimeapps.rs:115-143 | setting a single handler and then removing it drops the key |
| MimeApps.MimeAppsFile.FromText | src/mimeapps.rs:50-84 | the file object holds the parsed tables, which are well formed |
| MimeApps.MimeAppsFile.Write | src/mimeapps.rs:87-112 | for well-formed tables, reading the written text back gives the object's tables |
| MimeApps.MimeAppsFile.HandlersFor | src/mimeapps.rs:147-149 | the default list for the MIME type, or none when it has no key |
| MimeApps.MimeAppsFile.ApplyToMimes | src/mimeapps.rs:161-177 | `default_apps` becomes the edit applied to every resolved target; `added_associations` is unchanged |
| MimeApps.MimeAppsFile.SetHandler | src/mimeapps.rs:115-121 | `default_apps` becomes `EditDefaults` with a set; the other table is unchanged |
| MimeApps.MimeAppsFile.AddHandler | src/mimeapps.rs:124-130 | `default_apps` becomes `EditDefaults` with an add; the other table is unchanged |
| MimeApps.MimeAppsFile.RemoveHandler | src/mimeapps.rs:133-143 | `default_apps` becomes `EditDefaults` with a remove, including the clean-up of empty lists; the other table is unchanged |
| MimeAssociations.ReadLine | src/mime_associations.rs:41-75 | one turn of the line loop computes the fold step |
| MimeAssociations.ParseMimeappsFile | src/mime_associations.rs:37-78 | the line loop over one file computes the fold over its lines |
| MimeAssociations.Load | src/mime_associations.rs:23-35 | the loop over the files, last to first, computes the reverse fold |
| MimeAssociations.GetAssociations | src/mime_associations.rs:80-85 | the stored list, or the empty list when the MIME type is absent |
| MimeAssociations.StepIgnored | src/mime_associations.rs:43-54 | blank and `#` lines change nothing; any bracketed line becomes the current section; lines outside the two sections, and lines without `=`, never change the map |
| MimeAssociations.StepAssignment | src/mime_associations.rs:55-73 | for any line read as an assignment (no `=` in the key, not a comment, not a bracketed header; the key may be empty or start with `[`): no handlers adds no key; a Default line replaces the list; an Added line appends to it |
| MimeAssociations.KeepTrimmedEmpty | src/mime_associations.rs:57-61 | nothing is kept exactly when every piece is empty |
| MimeAssociations.AppsEmptyIffOnlySeparators | src/mime_associations.rs:57-63 | a value yields no handlers exactly when it consists only of `;` |
| MimeAssociations.AppsKeepRepeatsAndBlanks | src/mime_associations.rs:57-61 | `a; ;a` gives `a`, an empty name and `a` again: no deduplication, and a blank segment survives as empty |
| MimeAssociations.StepHeader | src/mime_associations.rs:47-50 | a section header only switches the section |
| MimeAssociations.StepAssign | src/mime_associations.rs:64-73 | a trimmed assignment, including one with an empty key or a key starting with `[`, replaces the list in Default and appends to it in Added |
| MimeAssociations.EmptyKeyStored | src/mime_associations.rs:55-67 | `=x.desktop` in `[Default Applications]` stores `["x.desktop"]` under the empty key |
| MimeAssociations.OpenBracketKeyStored | src/mime_associations.rs:47-67 | `[a=b` does not end in `]`, so it is no header: it stores `["b"]` under the key `[a` |
| MimeAssociations.AppsOfOne | src/mime_associations.rs:57-61 | a trimmed, non-empty value without `;` is a single handler |
| MimeAssociations.ReadDefaultThenLine | src/mime_associations.rs:47-73 | a Default header followed by an assignment stores exactly that assignment's handlers |
| MimeAssociations.FileEndingInDefault | src/mime_associations.rs:37-78 | a file whose last lines are a Default header and an assignment maps that MIME type to those handlers |
| MimeAssociations.LoadFirstFileLast | src/mime_associations.rs:27-32 | the first file is read last, on top of the result of all later files |
| MimeAssociations.StepFrame | src/mime_associations.rs:41-75 | a line moves to the section a bracketed header names and otherwise keeps it; a line that is not a Default or Added assignment for a MIME type leaves that type's entry as it was |
| MimeAssociations.StepDefaultLine | src/mime_associations.rs:64-68 | inside Default, an assignment for a MIME type sets its entry to the line's handlers, whatever it held |
| MimeAssociations.ParseLinesSection | src/mime_associations.rs:41-75 | after any run of lines the current section is the one the last header named |
| MimeAssociations.ParseLinesUntouched | src/mime_associations.rs:41-75 | lines that never assign to a MIME type leave its entry, present or absent, as it was |
| MimeAssociations.ParseLinesDefaultWins | src/mime_associations.rs:41-75 | a Default assignment anywhere in the lines, with no later assignment to the same type, decides that type's entry, whatever map the lines are read into |
| MimeAssociations.ParseFileDefaultWins | src/mime_associations.rs:37-78 | the same for the lines of one file read on top of any earlier result |
| MimeAssociations.FirstFileDefaultWins | src/mime_associations.rs:23-35 | a Default line for a MIME type anywhere in the first readable file, with no later assignment to it in that file, decides its list; later files make no difference |
| MimeAssociations.DefaultThenAdded | src/mime_associations.rs:64-73 | a Default line followed by an Added line for the same type gives the first list followed by the second |
| DesktopParser.Parse | src/desktop_parser.rs:111-178 | the line loop with section, action and field state computes the fold over lines, then the last section |
| DesktopParser.ReadLine | src/desktop_parser.rs:123-162 | one turn of the loop computes the fold step |
| DesktopParser.SaveSection | src/desktop_parser.rs:133-142 | the flush of a finished section computes `Flush` |
| DesktopParser.ParseBoolMeaning | src/desktop_parser.rs:180-194 | true exactly for a present value that trims to `true` ignoring ASCII case; `TRUE` is true, blank and `yes` are false |
| DesktopParser.ParseListOfJoin | src/desktop_parser.rs:196-206 | a `;`-joined list of trimmed, non-empty, `;`-free items reads back as itself, with or without a trailing `;` |
| DesktopParser.ParseListItems | src/desktop_parser.rs:196-206 | every item is non-empty, trimmed and free of `;` |
| DesktopParser.ParseOptionalStringMeaning | src/desktop_parser.rs:208-217 | present exactly when the value is not blank, and then it is the trimmed value; applying it again changes nothing |
| DesktopParser.BuildDesktopEntryMeaning | src/desktop_parser.rs:219-287 | fails exactly when Name or Exec is missing or blank, with "Missing Name field" checked first, then "Missing Exec field"; otherwise the name is trimmed, Exec is kept as written, Type defaults to `Application`, and each of the other 22 fields is read from its own key by the optional-string, list or boolean helper |
| DesktopParser.BuildDesktopActionMeaning | src/desktop_parser.rs:289-305 | succeeds exactly when Name and Exec are present, with those values and the optional icon |
| DesktopParser.StepIgnored | src/desktop_parser.rs:123-129 | blank and `#` lines, and lines with no `=` that are no header, change nothing |
| DesktopParser.StepField | src/desktop_parser.rs:157-162 | a `key=value` line splits at its first `=`, so the value may contain `=`, and stores the trimmed value under the trimmed key |
| DesktopParser.LaterFieldWins | src/desktop_parser.rs:157-162 | of two assignments to the same key in a section, the later one is kept |
| DesktopParser.FlushMeaning | src/desktop_parser.rs:133-142 | a broken `[Desktop Entry]` fails; a good one becomes the main entry; a complete action block is added under its id; an action block missing Name or Exec, or any other section, is dropped silently |
| DesktopParser.StepHeader | src/desktop_parser.rs:131-155 | a header fails exactly when flushing the previous section fails; otherwise it starts a new section with no fields, and an action header sets the action id |
| DesktopParser.ActionIdOfHeader | src/desktop_parser.rs:148-153 | the action id is the text between `[Desktop Action ` and `]` |
| DesktopParser.ParseEmpty | src/desktop_parser.rs:111-178 | empty contents give no main entry and no actions |
| DesktopParser.ParseLinesConcat | src/desktop_parser.rs:123-163 | parsing two runs of lines is parsing the first run, then the second from where the first left off, and an error stops it |
| DesktopParser.BrokenEntryFailsFile | src/desktop_parser.rs:131-142 | a broken main entry followed by another header makes the parse fail |
| DesktopParser.BrokenEntryAtEnd | src/desktop_parser.rs:165-172 | a broken main entry at the end of the file makes the parse fail |
| DesktopParser.LastActionCollected | src/desktop_parser.rs:165-172 | an action block at the end of the file is collected, or dropped when it is incomplete |
| ApplicationFinder.BuildMeaning | src/application_finder.rs:129-145 | fails exactly when name, exec or desktop file is missing, with "Name is required", then "Exec is required", then "Desktop file path is required"; otherwise every field is carried over; a fresh builder is not associated, has priority -1 and is not default |
| ApplicationFinder.LaterSetterWins | src/application_finder.rs:50-98 | every setter overwrites an earlier call of itself, and `as_xdg_default` and `as_available` override `as_xdg` |
| ApplicationFinder.FileNameOfChild | src/application_finder.rs:263-268 | a name without `/` other than `.` and `..`, written after any directory, is the file name, as `Path::file_name` gives it |
| ApplicationFinder.FileNameTrailing | src/application_finder.rs:226-232 | a trailing `/` or `/.` leaves the file name unchanged and a trailing `/..` leaves none, as `Path::file_name` normalises components |
| ApplicationFinder.FindExact | src/application_finder.rs:263-268 | the first cached file whose file name is the id, or none when there is none |
| ApplicationFinder.FindSuffix | src/application_finder.rs:270-275 | the first cached path ending with the id, or none when there is none |
| ApplicationFinder.FindDesktopFileMeaning | src/application_finder.rs:262-278 | an exact file-name match wins and is the first one; otherwise the first path ending with the id; none only if neither exists |
| ApplicationFinder.PushActions | src/application_finder.rs:208-218 | the loop over a file's actions appends exactly the action entries of the specification |
| ApplicationFinder.AddAssociated | src/application_finder.rs:187-222 | one turn of the association loop computes the step of the fold over associated ids |
| ApplicationFinder.AddAvailable | src/application_finder.rs:225-256 | one turn of the loop over cached files computes the step of the fold over available entries |
| ApplicationFinder.FindForMime | src/application_finder.rs:180-260 | the nested loops with the `seen` set compute the ranked candidate list |
| ApplicationFinder.ActionAppsFacts | src/application_finder.rs:113-127 | each action entry is named `Parent - Action`, has the action's exec and the action's icon or else the parent's, carries the action id and follows its parent's ranking |
| ApplicationFinder.ActionAppsOnePerKey | src/application_finder.rs:208-218 | each visited action id yields exactly one action entry, carrying that id, in visiting order |
| ApplicationFinder.BlockActions | src/application_finder.rs:208-218 | with actions asked for, a file's contribution is its main entry followed directly by one action entry for each of the file's actions, and no action twice |
| ApplicationFinder.RankedFacts | src/application_finder.rs:180-260 | associated entries all come before available ones; every entry is built faithfully from its desktop file; associated entries are resolutions of listed ids with priority equal to the list index; available entries declare the MIME type, are not associated, have priority -1 and are not default; action entries directly follow their parent; no id gives two main entries; without actions there are no action entries |
| ApplicationFinder.RankedListsAssociated | src/application_finder.rs:186-222 | completeness of the first loop: every id of the association list, at its first position, that `find_desktop_file` resolves to a file with a main entry gets an associated main entry with that position as rank and that file as source; associated entries come in association-list order |
| ApplicationFinder.RankedListsDeclaring | src/application_finder.rs:224-258 | completeness of the second loop: every cached file declaring the type whose file-name id the association list did not claim gets an available main entry for that id; no available entry carries a claimed id; available entries come after all associated ones, in cache order |
| ApplicationFinder.OneDefault | src/application_finder.rs:191-202 | at most one entry is default, and it is the main entry for association index 0, with priority 0 |
| ApplicationFinder.XdgFoldUnresolved | src/application_finder.rs:187-190 | ids that resolve to no cached file add nothing |
| ApplicationFinder.AvailFoldUndeclared | src/application_finder.rs:225-240 | cached files that do not declare the MIME type add nothing |
| ApplicationFinder.NothingToFind | src/application_finder.rs:180-260 | an empty cache, or a MIME type neither associated nor declared, gives no candidates |
| Cache.IsExpiredMeaning | src/cache.rs:64-82 | a missing file, a file modified after caching, or an entry older than the maximum age is expired; a present, unmodified file within its age is not |
| Cache.Unexpired | src/cache.rs:183-187 | retain keeps exactly the entries that have not expired, unchanged |
| Cache.UnexpiredSettles | src/cache.rs:177-187 | after retention nothing needs invalidation; retaining again changes nothing; retention changes nothing exactly when nothing has expired |
| Cache.Pairs | src/cache.rs:169-175 | each stored pair appears, and only stored pairs, one per key |
| Cache.MemoryCache.constructor | src/cache.rs:197-201 | a new memory cache is empty |
| Cache.MemoryCache.Get | src/cache.rs:221-223 | the stored file, or none when the path is absent |
| Cache.MemoryCache.Len | src/cache.rs:241-243 | the number of stored paths |
| Cache.MemoryCache.IsEmpty | src/cache.rs:237-239 | empty exactly when the length is 0 |
| Cache.MemoryCache.Iter | src/cache.rs:245-247 | exactly the stored pairs, as many as the length |
| Cache.MemoryCache.NeedsInvalidation | src/cache.rs:249-252 | never |
| Cache.MemoryCache.Insert | src/cache.rs:225-227 | afterwards `get` gives the file; the length grows only for a new path; every other path is unchanged |
| Cache.MemoryCache.Remove | src/cache.rs:229-231 | returns the stored file; afterwards the path is absent; an absent path leaves the store unchanged |
| Cache.MemoryCache.Clear | src/cache.rs:233-235 | afterwards the cache is empty with length 0 |
| Cache.MemoryCache.InvalidateExpired | src/cache.rs:254-256 | leaves the store unchanged |
| Cache.MemoryCache.Load | src/cache.rs:211-214 | succeeds and changes nothing |
| Cache.MemoryCache.Save | src/cache.rs:216-219 | succeeds |
| Cache.FileSystemCache.constructor | src/cache.rs:94-109 | a new cache is empty with the given maximum age (`new` uses 24 hours, `DefaultMaxAge`) |
| Cache.FileSystemCache.Get | src/cache.rs:140-142 | the stored file, or none when the path is absent |
| Cache.FileSystemCache.Len | src/cache.rs:165-167 | the number of stored paths |
| Cache.FileSystemCache.IsEmpty | src/cache.rs:161-163 | empty exactly when the length is 0 |
| Cache.FileSystemCache.Files | src/cache.rs:169-175 | the stored desktop files by path |
| Cache.FileSystemCache.Iter | src/cache.rs:169-175 | exactly the stored pairs, as many as the length |
| Cache.FileSystemCache.NeedsInvalidation | src/cache.rs:177-181 | true exactly when some entry has expired |
| Cache.FileSystemCache.Insert | src/cache.rs:144-151 | stores the file with the file's modification time, or the clock when none can be read, and the clock as the caching time; the length grows only for a new path; every other path is unchanged |
| Cache.FileSystemCache.Remove | src/cache.rs:153-155 | returns the stored file; afterwards the path is absent; an absent path leaves the store unchanged |
| Cache.FileSystemCache.Clear | src/cache.rs:157-159 | afterwards the cache is empty |
| Cache.FileSystemCache.InvalidateExpired | src/cache.rs:183-187 | keeps exactly the unexpired entries, after which nothing needs invalidation |
| Bootstrap.LastDot | src/open_it/bootstrap.rs:108-110 | the position of the last `.`, or none when there is no `.` |
| Bootstrap.ExtensionOfName | src/open_it/bootstrap.rs:108-110 | `stem.ext`, with a non-empty stem and no `.` in `ext`, has extension `ext` (the name `..` excepted) |
| Bootstrap.ExtensionWithoutDot | src/open_it/bootstrap.rs:108-110 | a name with no `.` has no extension |
| Bootstrap.ExtensionOfHidden | src/open_it/bootstrap.rs:108-110 | a name whose only `.` leads it has no extension, so `.desktop` is no candidate |
| Bootstrap.ExtensionExamples | src/open_it/bootstrap.rs:108-110 | `a.desktop` and `a.b.desktop` give `desktop`, and `a.` gives the empty extension |
| Bootstrap.NoExtensionExamples | src/open_it/bootstrap.rs:108-110 | `.desktop`, `..` and `desktop` give no extension, so none of them is a candidate |
| Bootstrap.PopulateOne | src/open_it/bootstrap.rs:100-130 | one turn of the walk loop computes the fold step on the cache and the `updated` flag |
| Bootstrap.PopulateFromWalk | src/open_it/bootstrap.rs:91-132 | the loop over one directory's walk computes the fold over walk entries, including the `updated` flag |
| Bootstrap.PopulateCacheFromDirs | src/open_it/bootstrap.rs:78-135 | the loop over directories computes the fold over the walks of the directories that exist |
| Bootstrap.ParseFile | src/open_it/bootstrap.rs:122-130 | reading and parsing one walked file computes `Parsed` |
| Bootstrap.StepMeaning | src/open_it/bootstrap.rs:100-130 | a file that is no candidate, is already cached without force, or fails to parse changes nothing; otherwise it is stored under its full path with the clock as caching time, the flag is set, and every other path is unchanged |
| Bootstrap.FoldUpdated | src/open_it/bootstrap.rs:83-134 | the flag ends up set exactly when it was set already or some walk entry is inserted |
| Bootstrap.FoldKeepsCached | src/open_it/bootstrap.rs:112-120 | without force, every cached entry is kept unchanged |
| Bootstrap.FoldKeys | src/open_it/bootstrap.rs:100-130 | every parsable candidate path ends up in the cache under its own path, and nothing else is added |
| Bootstrap.PopulateFacts | src/open_it/bootstrap.rs:78-135 | the result reports an update exactly when some insert happened; without force cached entries are kept; every parsable candidate of a present directory is stored, and only those are added; each stored value is either the one cached before, unchanged, or a walked parsable candidate's file under its own path with its recorded modification time and the clock as caching time, and it is the latter for every new path and, with force, for every path some candidate has |
| Bootstrap.FoldValues | src/open_it/bootstrap.rs:112-130 | every value after the pass is the one cached before, unchanged, or the parsed file of a walked candidate with that path, recorded with its modification time and the clock |
| Bootstrap.FoldForcedValues | src/open_it/bootstrap.rs:112-130 | with force, a path some parsable candidate has holds such a candidate's file, whatever was cached before |
| Bootstrap.MissingDirIgnored | src/open_it/bootstrap.rs:86-89 | a directory that does not exist contributes nothing |
| Bootstrap.LoadDesktopCache | src/open_it/bootstrap.rs:48-76 | rebuilds, clearing and then populating with force, exactly when invalidation is needed or the cache is empty; otherwise populates what is cached; saves exactly when it rebuilt or the populate pass updated something; the maximum age is kept |
| Bootstrap.ClearCache | src/open_it/bootstrap.rs:32-46 | fails, with "Failed to remove cache file", exactly when a cache file exists and removing it fails; a missing file is success |
| Template.ExpandNoVariables | src/template.rs:28-81 | with no variables a template renders as itself |
| Template.ExpandPlain | src/template.rs:74-77 | a character other than `{` is copied |
| Template.ExpandDoubleBrace | src/template.rs:35-39 | `{{` is emitted literally and starts no name |
| Template.ExpandName | src/template.rs:41-72 | `{name}` becomes the variable's value when it is set, and is copied as written when it is not; the value is not scanned again |
| Template.ExpandUnclosed | src/template.rs:62-72 | a `{` with no closing `}` is copied with the rest of the template |
| Template.ExpandVariableAlone | src/template.rs:58-61 | a set variable on its own renders as its value |
| Template.TemplateEngine.constructor | src/template.rs:11-15 | a new engine has no variables |
| Template.TemplateEngine.Set | src/template.rs:18-25 | afterwards the variable has the new value, overwriting an earlier one, and no other variable changes |
| Template.TemplateEngine.Clear | src/template.rs:89-91 | afterwards no variable is set |
| Template.TemplateEngine.HasVariable | src/template.rs:94-96 | true exactly when the variable is set |
| Template.TemplateEngine.GetVariable | src/template.rs:99-101 | the value exactly when the variable is set |
| Template.TemplateEngine.Render | src/template.rs:28-81 | the scan over the template with index `i` computes `Expand` of the variables |
| Template.TemplateEngine.RenderArgs | src/template.rs:84-86 | renders each argument, keeping length and order |
| Template.RenderAt | src/template.rs:34-78 | one turn of the scan emits what `Expand` emits for the construct at `i`, and moves past it |
| Template.RenderName | src/template.rs:41-72 | the single-brace branch substitutes a set variable, or copies through the `}` or to the end |
| Template.ScanName | src/template.rs:41-56 | stops at the first `}` after the brace, or at the end, with no `}` in the name |
| Template.CopyThrough | src/template.rs:62-72 | copies the template from the brace through the `}`, or to the end |
| Executor.PrepareCommandMeaning | src/executor.rs:21-47 | fails, with "Empty exec command", exactly when the cleaned command is blank; otherwise the words of the cleaned command, without quoting, followed by the path, the first word starting the command |
| Executor.CleanExecWithoutPercent | src/executor.rs:22-32 | an Exec line without `%` is only trimmed |
| Executor.RemoveCodesWithoutPercent | src/executor.rs:24-31 | removing field codes leaves text without `%` unchanged |
| Executor.EscapedCodeDropped | src/executor.rs:22-32 | `%%` is unescaped before the codes are removed, so a command followed by `%%f` prepares like the command alone |
| Executor.WordThenEscapedCode | src/executor.rs:21-47 | a one-word command followed by ` %%f`, such as `app %%f`, gives the word and then the path |
| Selector.MarkerForAppAsWritten | src/selector.rs:87-97 | the marker exactly as written, with the component-wise path check |
| Selector.RegexHandlerMissedAsWritten | src/selector.rs:88 | the entry whose desktop file is `regex-handler-5.desktop` gets `[available]` as written, but `[regex]` with the string prefix |
| Selector.MarkerForApp | src/selector.rs:87-97 | one of the four markers |
| Selector.MarkerForAppMeaning | src/selector.rs:87-97 | `[regex]` exactly for a desktop file starting with `regex-handler-`, else `[default]` for the default, else `[xdg]` for an associated entry, else `[available]`; every path the component check accepts is accepted |
| Selector.StripMarkerMeaning | src/selector.rs:99-106 | input not starting with `[` or lacking `]` is returned unchanged; otherwise the text after the first `]`, with leading whitespace trimmed |
| Selector.StripAt | src/selector.rs:99-106 | with the first `]` at `k`, the result is what follows, trimmed at the start |
| Selector.StripBracketed | src/selector.rs:99-106 | `[x] name` strips to `name` when the name does not start with whitespace |
| Selector.StripMarkerRoundTrip | src/selector.rs:47-71 | stripping a menu line gives back the application's name, with the marker as written and with the corrected one |
| Selector.MarkerLineStrips | src/selector.rs:99-106 | any of the four markers, a space and a name not starting with whitespace strip to the name |
| Selector.Menu | src/selector.rs:47-50 | one line per application, in order, marked as `marker_for_app` writes it; each strips back to its application's name |
| Selector.Position | src/selector.rs:73-81 | the first application with the given name, or none when there is none |
| Selector.Names | src/selector.rs:73-81 | the application names, in order |
| Selector.RunMeaning | src/selector.rs:16-84 | no applications gives none, before anything runs; a blank command is an error; a failed or empty selection gives none; a chosen index is the first application whose name is the stripped selection; an unknown selection is an error |
| Selector.RunPicksOfferedLine | src/selector.rs:47-81 | selecting a line of the menu as written picks the first application with that name, at or before it |
| MimePattern.MatchesReflexive | src/mime_pattern.rs:3-6 | a pattern matches itself, and any target equal to it ignoring ASCII case |
| MimePattern.BlankMatchesNothingElse | src/mime_pattern.rs:8-13 | when either side is blank after trimming, only equality ignoring case matches |
| MimePattern.NoSlashMeansEquality | src/mime_pattern.rs:15-24 | when either side lacks `/`, only equality ignoring case, as given or trimmed, matches |
| MimePattern.MatchesIsGlob | src/mime_pattern.rs:15-30 | when both sides hold `/`, matching is the glob match of the lowercased, trimmed pattern against the lowercased, trimmed target |
| MimePattern.MatchesIgnoresCase | src/mime_pattern.rs:3-30 | lowercasing both sides changes nothing |
| MimePattern.PrefixStar | src/mime_pattern.rs:26-28 | a literal prefix followed by `*` matches every extension of that prefix |
| MimePattern.WildcardExample | src/mime_pattern.rs:43-45 | `image/*` matches `image/png` |
| MimePattern.MismatchedTypeExample | src/mime_pattern.rs:48-50 | `text/*` does not match `image/png` |
| MimePattern.CaseAndEmptyExamples | src/mime_pattern.rs:38-61 | equal and case-different types match; an empty pattern or target does not |
| RegexHandlers.AnyMatchesMeaning | src/regex_handlers.rs:41-43 | a handler matches exactly when some compiled pattern matches, so one with no patterns never does |
| RegexHandlers.FindIndex | src/regex_handlers.rs:121-125 | the first matching handler, or none exactly when none matches |
| RegexHandlers.FindHandler | src/regex_handlers.rs:121-125 | a stored handler that matches, or none exactly when none matches |
| RegexHandlers.Len | src/regex_handlers.rs:106-108 | the number of handlers |
| RegexHandlers.IsEmpty | src/regex_handlers.rs:111-113 | empty exactly when the length is 0 |
| RegexHandlers.InsertKeepsHandlers | src/regex_handlers.rs:152 | inserting adds exactly the one handler |
| RegexHandlers.InsertKeepsSorted | src/regex_handlers.rs:152 | inserting into a list in non-increasing priority keeps it so |
| RegexHandlers.SortedCons | src/regex_handlers.rs:152 | a handler of at least every later priority can be put in front |
| RegexHandlers.InsertKeepsPriorityOrder | src/regex_handlers.rs:152 | insertion goes before the handlers of its own priority in the rest and leaves the order within each priority as it was |
| RegexHandlers.SortByPriorityFacts | src/regex_handlers.rs:152 | the sort gives non-increasing priority, is a permutation, and keeps definition order within each priority (it is stable) |
| RegexHandlers.FirstRefused | src/regex_handlers.rs:130-138 | the first pattern that does not compile, or none exactly when all compile |
| RegexHandlers.ErrorSticks | src/regex_handlers.rs:130-150 | a compile error in a prefix of the definitions is the error of the whole |
| RegexHandlers.FromDefinitions | src/regex_handlers.rs:127-160 | the nested compile loops and the sort compute the specification of the store |
| RegexHandlers.CompileAllFacts | src/regex_handlers.rs:130-150 | compiling succeeds exactly when every pattern compiles, giving one handler per definition in order; an error names the compile failure |
| RegexHandlers.StoreFromFacts | src/regex_handlers.rs:127-160 | construction fails exactly when some pattern does not compile; on success the store keeps the definitions, has one handler per definition, and is the stable non-increasing priority sort of the compiled handlers |
| RegexHandlers.StoreHandlers | src/regex_handlers.rs:127-160 | the stored handlers are exactly those of the definitions |
| RegexHandlers.FindHandlerHighestPriority | src/regex_handlers.rs:121-125 | the handler found matches and has the highest priority among the definitions that match; none is found exactly when no definition matches |

## Left out

- File and disk I/O is not modelled; file contents are inputs. This covers:
  - `MimeApps::load_from_disk`, `save_to_disk` and `default_path`;
  - `FileSystemCache::load` and `save`, which use JSON through serde;
  - the file read in `DesktopFile::parse`;
  - the reads in `MimeAssociations::load`, where an unreadable file is `None`;
  - `cache_path`.
- The directory walk (`WalkDir`) and the `exists()` checks in `populate_cache_from_dirs` are inputs. Each walk entry carries its path, the names along the walk, an is-file flag and its contents.
- `src/cache.rs` uses `SystemTime` and `Duration`; they become integer clocks and seconds.
  - A modification time that cannot be read is recorded as the clock.
  - A clock earlier than the caching time cannot give an age, which the source treats as expired.
- Hash-map iteration order is unspecified in the source and can differ from run to run. It is observable in two places: the order of the available entries and of the actions `find_for_mime` returns (`src/application_finder.rs:208-256`), and which cached file `find_desktop_file` picks when an exact or a suffix match is ambiguous (`src/application_finder.rs:262-278`). The model fixes one order, sorted keys:
  - for the cache's `iter`;
  - for the actions of a desktop file;
  - for the cache entries the finder visits.
  - The finder takes those entries as an explicit sequence, so `ApplicationFinder.RankedFacts`, `ApplicationFinder.RankedListsAssociated`, `ApplicationFinder.RankedListsDeclaring` and `ApplicationFinder.FindDesktopFileMeaning` hold for any entry order the map may yield, not only the sorted one.
- Rust's `lines()` is modelled as splitting on newlines. Every caller trims its lines and skips blank ones, so the `\r` removal and the last empty line make no difference.
- `char::is_whitespace` is modelled by the Unicode White_Space code points. ASCII lowercasing is modelled exactly; Unicode case folding is not.
- Regex compilation and matching are the parameters `compiles` and `isMatch`.
  - `CompileError` fixes only the prefix of the error message.
  - Not modelled: `RegexHandlerStore::load`, `save`, `config_path`, `load_handlr_handlers` (TOML and file reads) and the `patterns()`/`handlers()` accessors.
- `WildMatch` is modelled as a plain `*`/`?` glob (`Util.GlobMatches`).
- Child processes are not modelled:
  - `spawn_detached` in `src/executor.rs` (and `execute`, which calls it);
  - the selector's spawn, stdin write and wait, whose result is the `SelectorOutcome` input.
- `src/fuzzy_finder.rs`, `src/open_it/selection.rs`, `src/open_it/execution.rs` and `src/xdg.rs` are not part of this model. They are process and environment code, or depend on items the other files do not define. `src/config.rs` is not part of this model either: its TOML loading and one-line fallbacks belong to the configuration layer.
- The command line and glue are not part of this model: `src/cli.rs`, `src/main.rs`, the commands, `src/open_it/mod.rs`, `src/target.rs`, `src/open_it/target.rs`, the GTK icon picker and `mime_guess`.
  - The commands reduce to the `MimeAppsFile` edits: `set` with a one-element list, and `unset` as remove with no handler.
- The model follows the definitions in the core files where other files disagree with them. In particular, the `%%` replacement order in `src/main.rs:274-285` differs from `src/executor.rs:23`; the model uses the executor's order.

## Findings

| source | as written | input that shows it | evidently intended | confidence | as-written member | corrected member |
|---|---|---|---|---|---|---|
| src/selector.rs:88 | `marker_for_app` tests `desktop_file.starts_with("regex-handler-")` on a path, which compares whole components | a regex-handler entry, whose desktop file is `regex-handler-5.desktop` (the name `src/open_it/execution.rs:77` gives it), gets `[available]` because its one component is not `regex-handler-` | the string-prefix test that `src/open_it/selection.rs:37` uses for the same names, giving `[regex]` | not executed | Selector.MarkerForAppAsWritten | Selector.MarkerForApp |

The menu (`Selector.Menu`) is built with the marker as written, as `src/selector.rs:47-50` builds it. The finding changes only the label a line carries. The label is one of the four bracketed markers either way, so stripping a line gives back the name with either marker (`Selector.StripMarkerRoundTrip`), and what is selected does not depend on the label.
