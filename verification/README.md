# Task manager — a Dafny model

A model of the command-line task manager in `src/main.rs`. The program
keeps a list of tasks. Each task has a description, a status (Pending or
Completed) and a creation date. The list lives in a text file, one
`status|description|date` line per task. It is loaded at start-up and
written back when the user quits. A numbered menu adds, lists, marks,
searches, deletes and clears tasks.

The model is pure: every action is a function from the collection (a
`seq<Task>`) and the line the user typed to a new collection or to the
entries that would be printed.

| file | module | what it holds |
|---|---|---|
| `wrappers.dfy` | `Wrappers` | `Option` |
| `text.dfy` | `Text` | `str::trim` (Unicode White_Space), ASCII `to_lowercase`, `str::contains`, character search |
| `text.dfy` | `Fields` | `str::split` on one character, and `Join` as its inverse |
| `tasks.dfy` | `Tasks` | `Status`, `Task`, the fixed date, `as_str` / `from_str` |
| `store.dfy` | `Store` | the line codec, `BufRead::lines`, `load_tasks`, `save_tasks` |
| `actions.dfy` | `Actions` | add, mark-completed, delete, clear-completed |
| `views.dfy` | `Views` | `list_tasks` and `search_tasks` as lists of (position, task) entries |
| `session.dfy` | `Session` | `parse::<usize>`, menu dispatch, one round of the loop, the whole loop over typed lines |

The file is modelled as `Option<string>`. `None` stands for a file that
could not be opened, for any reason: missing, or refused for lack of
permission. `load_tasks` (src/main.rs:37-62) turns every failure to open
into the empty collection and skips each line whose read fails. It never
returns `Err`, so the `expect` at src/main.rs:210 cannot fire.

Reading goes through an exact model of `BufRead::lines`:
- lines are cut at `'\n'`;
- a `'\r'` just before a `'\n'` is dropped;
- text after the last `'\n'` forms a final line only if it is non-empty.

The save–load round trip holds exactly for *storable* tasks. A task is
storable when its description and date contain no `'|'` or `'\n'` and its
date does not end in `'\r'`. The line codec alone round-trips exactly when
neither field contains `'|'` (`Store.LineRoundTrip`). A description typed
with a `'|'` is therefore saved, but the task is silently dropped on the
next load.

List positions are absolute. Each entry carries the task's 1-based index in
the whole collection, not its rank in the listing. Because of this, the
number read after the Pending listing in mark-completed addresses the task
the user saw (`Views.MarkShownPosition`).

## Model

| member | source | states |
|---|---|---|
| Tasks.StatusName | src/main.rs:27-32 | the written name is one of the two literals, and it is "Completed" exactly for Completed |
| Tasks.ParseStatus | src/main.rs:20-25 | text parses as Completed if and only if it is exactly "Completed" |
| Tasks.StatusRoundTrip | src/main.rs:20-32 | parsing a written status gives it back, and distinct statuses have distinct names |
| Tasks.ParseStatusDefault | src/main.rs:20-25 | any other text, "Pending" and the empty text included, falls back to Pending |
| Fields.Split | src/main.rs:45 | splitting gives one more piece than there are separators, and no piece holds a separator |
| Fields.JoinSplit | src/main.rs:45 | gluing the pieces back with the separator restores the line |
| Fields.SplitJoin | src/main.rs:45 | separator-free fields, joined and split again, come back unchanged |
| Store.DecodeLine | src/main.rs:45-56 | a line decodes exactly when it has two pipe characters, so three fields; the decoded fields hold no pipe character; the line is the fields joined, with the status field parsing to the status |
| Store.LineRoundTrip | src/main.rs:45-73 | a written line decodes back to its task if and only if neither description nor date contains a pipe character |
| Store.EncodeLine | src/main.rs:68-73 | the line written for one task, without its newline; it has no contract of its own: `Store.EncodeLineIsJoin` and `Store.LineRoundTrip` state what it promises |
| Store.EncodeLineIsJoin | src/main.rs:68-73 | the written line is status name, description and date joined by pipe characters |
| Store.Lines | src/main.rs:43 | no line read from the file contains a newline |
| Store.LinesCrLf | src/main.rs:43 | a line ended by a carriage return and newline reads back without the carriage return, followed by the lines of the rest |
| Store.LinesUnlines | src/main.rs:43-75 | newline-terminated plain lines are read back as the same lines |
| Store.EncodeAll | src/main.rs:67-75 | one written line per task, in collection order |
| Store.Save | src/main.rs:64-78 | the whole file content `save_tasks` writes; no contract of its own: `Store.SaveLoadRoundTrip` states that loading it gives the collection back |
| Store.LoadLines | src/main.rs:43-58 | loading never yields more tasks than lines, and no loaded field contains a pipe character |
| Store.Load | src/main.rs:37-62 | a file that cannot be opened, missing or refused, loads as the empty collection; loading never returns an error |
| Store.LoadLinesAppend | src/main.rs:43-58 | loading works line by line, so well-formed lines keep their relative order |
| Store.LoadOneLine | src/main.rs:45-56 | a single line yields its task when it has exactly three fields, and nothing otherwise |
| Store.SkipMalformed | src/main.rs:45-56 | a malformed line is dropped without disturbing the tasks on either side |
| Store.EncodedIsPlain | src/main.rs:68-73 | a storable task's line has no newline and does not end in '\r' |
| Store.DecodeEncoded | src/main.rs:45-73 | the written lines of storable tasks decode to exactly those tasks |
| Store.SaveLoadRoundTrip | src/main.rs:37-78 | loading the saved file of storable tasks gives the same collection: same order, statuses, descriptions and dates |
| Text.Trim | src/main.rs:91 | the trimmed text is a contiguous piece of the input, everything cut off is whitespace, and it neither starts nor ends with whitespace |
| Text.TrimIdempotent | src/main.rs:91 | trimming twice is trimming once |
| Text.TrimAllWhitespace | src/main.rs:91 | a line trims to the empty text if and only if it is all whitespace |
| Text.TrimReadLine | src/main.rs:88-91 | a line read with its newline trims to the line, when the line has no surrounding whitespace |
| Text.Lower | src/main.rs:174 | lower-casing keeps the length, maps each character on its own, and leaves no upper-case ASCII letter |
| Text.Contains | src/main.rs:181 | `str::contains` as a scan over start positions; no contract of its own: `Text.ContainsIsSubstring` states it agrees with an occurrence at some position |
| Text.ContainsIsSubstring | src/main.rs:181 | the containment scan answers yes exactly when the query occurs at some position of the description |
| Actions.Add | src/main.rs:90-96 | exactly one task is appended; earlier tasks are unchanged; the new task is Pending, has the trimmed line as description and the fixed date |
| Actions.MarkCompleted | src/main.rs:132-140 | a valid 1-based number completes only that task and keeps its description and date; length and all other tasks are unchanged; an invalid or unparsable number changes nothing |
| Actions.MarkCompletedIdempotent | src/main.rs:132-140 | marking the same number twice is marking it once |
| Actions.Delete | src/main.rs:151-159 | a valid number removes that task and shifts the later ones down one place; an invalid or unparsable number changes nothing |
| Actions.DeleteRemovesOne | src/main.rs:151-159 | deleting loses exactly one copy of the addressed task, as multisets |
| Actions.DeleteUndoesAdd | src/main.rs:90-159 | deleting the task just added restores the collection |
| Actions.ClearCompleted | src/main.rs:162-165 | no Completed task survives clearing, and the collection never grows |
| Actions.ClearCompletedKeepsPending | src/main.rs:163 | a task survives clearing if and only if it was in the collection and Pending |
| Actions.ClearCompletedAppend | src/main.rs:163 | clearing works element by element, so survivors keep their relative order |
| Actions.ClearCompletedNoop | src/main.rs:163 | a collection with no Completed task is left as it is |
| Actions.ClearCompletedIdempotent | src/main.rs:163 | clearing twice is clearing once |
| Actions.ClearAfterMark | src/main.rs:132-163 | for every number typed, clearing after marking that task is the same as clearing after deleting it; an invalid number leaves both at plain clearing |
| Views.FilterOf | src/main.rs:105-110 | a filter name shows nothing if and only if it is not "All", "Pending" or "Completed" |
| Views.Filter | src/main.rs:101-122 | `list_tasks` as the view of the status that the filter name selects; no contract of its own: `Views.EnumerateIsView`, `Views.FilterAll`, `Views.FilterUnknown` and `Views.StatusViewsPartition` state what it lists |
| Views.Selects | src/main.rs:105-110 | the `show_it` match of `list_tasks` and the `contains` test of search (src/main.rs:181); no contract of its own: `Views.ListedIffSelected` states that a task is listed exactly when it is selected, and `Views.SearchMatches` that a search selects by substring |
| Views.Enumerate | src/main.rs:104-121 | the loop of `list_tasks`, and of `search_tasks` (src/main.rs:180-191): each selected task with its 1-based position; its contract bounds the listing by the collection, and `Views.EnumerateIsView` and `Views.ListedIffSelected` state that it is sound, ordered and complete |
| Views.EnumerateIsView | src/main.rs:104-121 | every entry is a selected task at its 1-based position in the whole collection; positions strictly increase; every selected task is listed |
| Views.ListedIffSelected | src/main.rs:104-121 | a task is listed if and only if the view selects it |
| Views.ListTasks | src/main.rs:104-121 | the listing loop prints exactly the view of the filter |
| Views.SearchTasks | src/main.rs:174-195 | the search loop prints exactly the search view, and reports a match if and only if it printed an entry |
| Views.FilterAll | src/main.rs:108 | "All" lists every task, numbered 1 to n in order |
| Views.FilterUnknown | src/main.rs:109 | any other filter name lists nothing |
| Views.StatusViewsPartition | src/main.rs:105-107 | a task is in the Pending listing if and only if it is Pending, and in the Completed listing if and only if it is Completed; so every task is in exactly one of the two, and their lengths add up to the number of tasks |
| Views.PendingViewIsClearCompleted | src/main.rs:104-121 | the Pending listing shows exactly the tasks clear-completed keeps, in the same order |
| Views.Search | src/main.rs:167-196 | `search_tasks` as the view of the tasks whose description holds the query; no contract of its own: `Views.SearchMatches` and `Views.SearchEmptyQuery` state what it lists |
| Views.SearchMatches | src/main.rs:174-181 | a task is listed if and only if the trimmed, lower-cased query occurs in its lower-cased description |
| Views.SearchEmptyQuery | src/main.rs:174-181 | an empty or all-whitespace query lists the whole collection, as "All" does |
| Views.SearchIgnoresCase | src/main.rs:174-181 | "PLAN" finds "Plan weekend trip" |
| Views.ShownPosition | src/main.rs:113-119 | a shown entry carries a valid position, and the task at that position |
| Views.MarkShownPosition | src/main.rs:124-137 | a position shown in a listing, typed back, completes that very task |
| Views.DeleteShownPosition | src/main.rs:143-156 | a position shown in a listing, typed back, removes that very task and nothing else |
| Session.ParseUsize | src/main.rs:132 | `parse::<usize>`: an optional plus sign, then ASCII digits only, and a value within the 64-bit bound; no contract of its own: `Session.ParseUsizeSpec` and `Session.ParseDecimal` state what it accepts |
| Session.ParseUsizeSpec | src/main.rs:132 | a parsed number fits in a 64-bit `usize` and comes from text holding a digit; a '-', the empty text and a lone '+' are rejected |
| Session.ParseIndex | src/main.rs:132 | `input.trim().parse::<usize>()`, as read by mark-completed and by delete (src/main.rs:151); no contract of its own: `Session.ParseIndexTyped` states that a printed position, typed back with its newline, reads as that position |
| Session.ParseIndexTyped | src/main.rs:130-132 | a position printed in a listing, typed back as a line ending in its newline, reads as that same position |
| Session.ParseDecimal | src/main.rs:113-132 | a printed position, typed back, parses to the same number |
| Session.DecimalValue | src/main.rs:115 | the digits printed for a position denote that position |
| Session.ParseChoice | src/main.rs:229 | `match choice.trim()`: the trimmed menu line picks the entry; no contract of its own: `Session.ChoiceRoundTrip` states that a line selects an entry exactly when it trims to that entry's number |
| Session.ChoiceOf | src/main.rs:229-244 | a recognised menu key belongs to its entry, and an unrecognised key belongs to no entry |
| Session.ChoiceRoundTrip | src/main.rs:229-244 | a line selects an entry if and only if it trims to that entry's number |
| Session.MarkRound | src/main.rs:124-141 | the collection after the round is mark-completed applied to the parsed number |
| Session.MarkRoundReplies | src/main.rs:124-141 | the round confirms exactly when the number is valid; otherwise it answers "Invalid task number." and keeps the collection |
| Session.DeleteRound | src/main.rs:143-160 | the collection after the round is delete applied to the parsed number |
| Session.DeleteRoundReplies | src/main.rs:143-160 | the round confirms exactly when the number is valid, and the collection is then one shorter; otherwise it answers "Invalid task number." and keeps the collection |
| Session.Execute | src/main.rs:229-245 | only Quit saves, and it saves the current collection; an unknown choice only prints "Invalid choice."; entries that do not mutate keep the collection |
| Session.ExecuteAdd | src/main.rs:230 | entry 1 appends the typed task and confirms it |
| Session.ExecuteListings | src/main.rs:231-235 | entries 2, 3 and 4 print the All, Pending and Completed listings of the current collection, and entry 6 prints the search for the typed line |
| Session.ExecuteMark | src/main.rs:234 | entry 5 is the mark round: the collection becomes mark-completed applied to the parsed number |
| Session.ExecuteDelete | src/main.rs:236 | entry 7 is the delete round: the collection becomes delete applied to the parsed number |
| Session.ExecuteClear | src/main.rs:237 | entry 8 drops the Completed tasks and reports it |
| Session.MarkRoundShownEntry | src/main.rs:124-141 | mark-completed first prints the Pending listing, and a position read off it, typed back, is accepted and completes the task shown there |
| Session.DeleteRoundShownEntry | src/main.rs:143-160 | delete first prints the full listing, and a position read off it, typed back, is accepted and removes the task shown there and nothing else |
| Session.Run | src/main.rs:212-247 | a run that saves has saved its final collection |
| Session.QuitRound | src/main.rs:238-243 | a quit line saves the collection as it stands |
| Session.AddMarkQuit | src/main.rs:208-247 | starting empty, add a task, mark task 1 and quit: the file loads back as that one completed task, whatever whitespace surrounds the typed lines |
| Session.BuyMilkScenario | src/main.rs:208-247 | typing 1, "Buy milk", 5, 1, 9 saves a file that loads back as one completed "Buy milk" task |

## Left out

- Text.Lower: lower-cases ASCII letters only. Rust's `to_lowercase` maps all of Unicode, and some characters change length under it. The searches it affects are those on non-ASCII text.
- Text.Trim: follows `char::is_whitespace` through a fixed list of the Unicode White_Space code points. The list is taken from the Unicode standard, not from Rust's own tables.
- Session.ParseUsizeSpec: assumes a 64-bit target, so the `usize` bound is 2^64 - 1.
- Session.Run: stops when the typed lines run out, with nothing saved. The program itself reads empty lines at end of input and loops for ever, printing "Invalid choice.". Prompts that meet end of input read the empty line, as in the program.
- Errors when saving are not modelled: `File::create` and `write_all` failing, and the `expect` panic at src/main.rs:240 that follows. The file is a value, and saving always produces it.
- A file that opens but cannot be read (on Linux, a directory named `tasks.txt`) makes `lines()` yield errors for ever, and `load_tasks` never returns. The model's file is a value, so it cannot express this.
- A line that is not valid UTF-8 is skipped by the program, because `lines()` yields an error for it. It cannot occur in the model, whose file is a string of characters.
- Printed text is not modelled: the menu, the prompts, the headings and the `{}. [{}] {} ({})` line format. A reply records what is printed (the entries of a listing or a search, or which fixed message) but not its characters.
- Stdout flushing and `unwrap` on `read_line` are not modelled. They are process-level I/O.
