# TaskList in Dafny

A model of `TaskList`, the console task list in `Main.kt`, with proofs about it.

The program keeps a list of tasks. Each task is a list of strings ("cells"):

- cells 0 to 3 are the header cells. They hold the date, the time, the priority marker and the due marker, each written as `"| " + value + " "`.
- cells 4 onward are the body cells. Each holds one line of the task's text, wrapped at 44 characters into rows of the printed table.

The command loop `start` reads a command word and dispatches to one of these:

- `add` asks for a priority, a date, a time and the body lines, then appends the task.
- `print` renders the table.
- `edit` replaces one header field of a chosen task, or rebuilds its body.
- `delete` removes a chosen task.
- `end` saves the list and exits.

The priority prompt, the well-formedness checks of the date and time prompts, and the task-number prompts of `edit` and `delete` re-ask until the answer is acceptable. The exceptions are listed under the quirks below: the retry after an out-of-range date or time, and a blank first body line in `add`.

The model replaces the console with a finite sequence of input lines. Every reader takes the lines it consumes and hands back the rest. When the input runs out, `readln` throws in the original; the model reports this as a failed read (`None`, `ok == false`, or the `Died` session), and nothing is saved.

Every read in the field loop of `edit` is inside the original's `try` block: field names, priority, date, time and body lines. An end of input there is caught, but the re-prompt that follows then reads at the end of input outside the `try`, so the program still dies; the model states that outcome directly.

Today's date is a parameter. The UTC+2 clock reading is not modelled.

Modules, one per file:

- `Wrappers` (wrappers.dfy): `Option`.
- `Text` (text.dfy): the Kotlin string operations the program relies on. These are `Char.isWhitespace`, `trim`, `isBlank`, `padEnd`, `chunked`, `joinToString`, `split`, `lowercase`, `toInt` (32-bit) and `Int.toString`, plus the ANSI colour blocks.
- `Calendar` (calendar.dfy): proleptic Gregorian dates, a day number, `daysUntil`, and the due tag.
- `Validators` (validators.dfy): the one-line attempts of `inputPriority`, `inputDate` and `inputTime`, and their re-prompting readers over the input lines. This includes the fallback dates and times the original returns after a discarded retry.
- `Formatter` (formatter.dfy): the body cells built by `addTask` and by the `task` field of `editTasks`, their read-back (unwrapping), and the table `printTasks` prints.
- `Commands` (commands.dfy): the specification of every command as a function over the task list and the input lines, and of the whole command loop as a `Session`.
- `TaskStore` (store.dfy): the `TaskList` object as a class whose `tasks: seq<seq<string>>` field its methods update in place, with loops where the original loops. Each method is proved to end in the state and the remaining input that the matching `Commands` function describes.

Quirks of the original that the model keeps:

- A well-formed but invalid date makes `inputDate` re-prompt, discard the answer and return `1999-12-31`. A well-formed but out-of-range time likewise gives `12:00`.
- In `addTask`, a blank first body line prints "The task is blank" and restarts the command loop; nothing is appended.
- The `task` field of `editTasks` stores body lines untrimmed. It does not pad the last 44-wide piece of a long line. A long line after the first gets no closing `|`. Leading blank lines are skipped rather than ending the body.
- The field loop of `editTasks` dispatches on the trimmed, lower-cased line. It stops only when the untrimmed lower-cased line is a field name, so `" date "` edits the date and then asks for a field again.
- Rows numbered 10 and up are printed without their leading `|`.

## Model

| member | source | states |
|---|---|---|
| Text.Trim | Main.kt:133 | the trimmed line is empty exactly when the line is blank, and otherwise begins and ends with a non-whitespace character |
| Text.TrimSlice | Main.kt:133 | the trimmed line is a contiguous piece of the line with only whitespace before and after it |
| Text.TrimBlank | Main.kt:133-136 | a trimmed line is blank exactly when the untrimmed line is |
| Text.PadEnd | Main.kt:151 | padEnd keeps the line as a prefix, fills with spaces only, and reaches the requested width unless the line is already longer |
| Text.Chunked | Main.kt:142 | chunked pieces concatenate back to the line, and there are none only for the empty line |
| Text.ChunkedPieces | Main.kt:142 | every chunk is non-empty and at most 44 long, and every chunk but the last is exactly 44 long |
| Text.Split | Main.kt:78 | split gives at least one piece, no piece contains the delimiter, and joining the pieces with the delimiter gives the input back |
| Text.LowerChar | Main.kt:36 | A to Z become a to z, a to z stay, the Kelvin sign becomes k, and no other character lower-cases to an ASCII lower-case letter |
| Text.LowercaseWord | Main.kt:36 | a line lower-cases to a lower-case word (a command or field name) exactly when it spells that word letter by letter in either case, with the Kelvin sign counting as k |
| Text.ParseInt | Main.kt:82 | toInt yields only values inside the 32-bit Int range |
| Text.ParseIntSigned | Main.kt:82 | an optional + or - followed by digits (leading zeros allowed) is read as its signed decimal value when that fits in 32 bits, and is rejected otherwise |
| Text.ParseIntShape | Main.kt:82 | every other string is rejected: an accepted string is digits, or a sign followed by at least one digit |
| Text.NatToStringValue | Main.kt:188 | the decimal digits printed for a number read back as that number |
| Text.ParseIntNatToString | Main.kt:188 | the printed row number parses back to itself with toInt |
| Text.ColorBlockInjective | Main.kt:62-65 | colour blocks with equally long codes are equal only when the codes are |
| Calendar.DaysInMonth | Main.kt:82 | every month has between 28 and 31 days |
| Calendar.DayNumberIncreasing | Main.kt:113 | a calendar-earlier date has a smaller day number, so daysUntil is positive exactly towards later dates |
| Calendar.DueTagByCalendar | Main.kt:110-120 | the due tag is "today" exactly when the task date is today, "upcoming" exactly when it is later and "overdue" exactly when it is earlier |
| Calendar.DueMarkersDistinct | Main.kt:115-119 | the three due markers are pairwise different |
| Validators.TryPriority | Main.kt:55-58 | a line is accepted exactly when it is one letter of CcHhNnLl, and the priority is the one whose letter it is in either case |
| Validators.PriorityMarkersDistinct | Main.kt:61-66 | the four priority markers are pairwise different |
| Validators.ReadPriority | Main.kt:54-60 | the reader consumes at least one line when it succeeds |
| Validators.ReadPriorityFirst | Main.kt:57-60 | the priority comes from the first line whose trimmed text is a priority letter, and reading resumes right after that line |
| Validators.ReadPriorityNone | Main.kt:57-60 | with no acceptable line the reader runs out of input |
| Validators.DateGroups | Main.kt:71 | a line matching the date pattern is a four-digit year, a dash, a one- or two-digit month, a dash and a one- or two-digit day |
| Validators.SplitDate | Main.kt:78 | splitting a well-formed date at dashes gives exactly its year, month and day groups |
| Validators.TryDate | Main.kt:71-86 | a line is malformed exactly when it does not match the date pattern; a matching line is accepted exactly when its date is a valid calendar date, and the accepted date is the one it spells |
| Validators.AcceptedDateFormat | Main.kt:82-87 | an accepted date is printed as the input zero-padded to yyyy-mm-dd |
| Validators.FormatDateAccepted | Main.kt:87 | the printed form of a valid date is accepted again as the same date |
| Validators.ReadDate | Main.kt:70-88 | the date returned is valid with a four-digit year, and at least one line is consumed |
| Validators.ReadDateFirstWellFormed | Main.kt:73-87 | the first well-formed line decides: a valid date is returned as is; an invalid one re-prompts, discards the answer and yields 1999-12-31 |
| Validators.ReadDateNone | Main.kt:73-77 | input with no line matching the date pattern never yields a date: the reader runs out of input, where `readln` throws |
| Validators.TimeGroups | Main.kt:91 | a line matching the time pattern is one or two digits, a colon, and one or two digits |
| Validators.SplitTime | Main.kt:98 | splitting a well-formed time at the colon gives exactly its hour and minute groups |
| Validators.TryTime | Main.kt:91-106 | a line is malformed exactly when it does not match the time pattern; a matching line is accepted exactly when the hour is 0 to 23 and the minute 0 to 59 |
| Validators.AcceptedTimeFormat | Main.kt:102-107 | an accepted time is printed as the input zero-padded to hh:mm |
| Validators.FormatTimeAccepted | Main.kt:107 | the printed form of a valid time is accepted again as the same time |
| Validators.ReadTime | Main.kt:90-108 | the time returned is valid, and at least one line is consumed |
| Validators.ReadTimeFirstWellFormed | Main.kt:93-107 | the first well-formed line decides: an in-range time is returned as is; an out-of-range one re-prompts, discards the answer and yields 12:00 |
| Validators.ReadTimeNone | Main.kt:93-97 | input with no line matching the time pattern never yields a time: the reader runs out of input, where `readln` throws |
| Formatter.SegmentsShape | Main.kt:141-144 | every segment of a body line is exactly 44 wide, there are ceil(length/44) of them, and together they are the line followed by spaces only |
| Formatter.ShortSegments | Main.kt:151 | a line of at most 44 characters is one segment, the line padded to 44 |
| Formatter.BodyCellsFrameWrap | Main.kt:141-163 | the first body cell is the wrapped line between bars, and a later one starts a new table row with the empty-column gutter |
| Formatter.UnjoinJoin | Main.kt:145-148 | pieces joined with the continuation prefix are split apart again uniquely |
| Formatter.WrapRoundTrip | Main.kt:141-151 | unwrapping the wrapped text of a line that does not end in a space gives the line back |
| Formatter.TrimmedWrapRoundTrip | Main.kt:133-151 | every non-blank input line, once trimmed, is recovered from the text addTask stores |
| Formatter.EditCellsFrame | Main.kt:232-249 | the edit branch's cells are the unpadded pieces joined between bars, with no closing bar after a long later line |
| Formatter.EditCellsRoundTrip | Main.kt:232-249 | unwrapping an edit cell's text gives the untrimmed line without its trailing spaces |
| Formatter.EditCellsShortAgree | Main.kt:239-247 | for a line of at most 44 characters the edit branch stores the same cells as addTask |
| Formatter.EditCellsShorter | Main.kt:234-246 | for a line longer than 44 characters, a later edit cell is always shorter than addTask's (no padding, no closing bar); a first edit cell is shorter unless the length is a multiple of 44, where nothing needs padding and the two cells coincide |
| Formatter.RowBlocksShape | Main.kt:185-193 | each task contributes a border and then its row, in list order |
| Formatter.RenderTableShape | Main.kt:177-196 | an empty list prints only "No tasks have been input"; otherwise the header, a border and row per task in order, and a closing border |
| Formatter.RowLabelAlignment | Main.kt:186-191 | rows 1 to 9 begin with a bar in a five-character label; rows 10 to 99 have no bar and a label two characters shorter |
| Commands.HeaderCellsReadBack | Main.kt:137-138 | the date and time header cells hold exactly the printed date and time, which read back as the same values |
| Commands.TaskIndex | Main.kt:205-206 | a selected index is inside the list |
| Commands.TaskIndexIsNumber | Main.kt:205-206 | a line selects index i exactly when it parses as the number i + 1 |
| Commands.TaskNumberForms | Main.kt:205-206 | "+1" and "01" select the first task, as toInt accepts a plus sign and leading zeros |
| Commands.TaskNumberRejects | Main.kt:205-206 | "-0" (zero, minus one) and a number past the end of the list select nothing |
| Commands.RowNumberSelects | Main.kt:188-206 | typing the number printed in a row selects that row's task |
| Commands.ChosenTask | Main.kt:199-206 | the re-prompt fails exactly when no line selects a task; a chosen index is in range and at least one line is consumed |
| Commands.ChosenTaskFirst | Main.kt:201-206 | the first line that selects a task decides, and reading resumes after it |
| Commands.NonBlankRunSpec | Main.kt:132-171 | the run of body lines stops at the first blank line, and there is none exactly when every line is non-blank |
| Commands.AddCellsAt | Main.kt:136-164 | addTask stores one cell per body line: the first in the first-line form, the rest as new table rows |
| Commands.EditCellsAt | Main.kt:230-249 | the edit branch stores one cell per untrimmed body line: the first in the first-line form, the rest as new table rows |
| Commands.AddCellsReadBack | Main.kt:136-164 | every body cell addTask stores unwraps to its trimmed input line |
| Commands.EditCellsReadBack | Main.kt:230-249 | every body cell the edit branch stores unwraps to its input line without trailing spaces |
| Commands.EnterBody | Main.kt:132-171 | an entered body has at least one cell and consumes input |
| Commands.EnterBodyCases | Main.kt:132-171 | the task is abandoned exactly when the first line is blank; input runs out exactly when no line is blank; otherwise the cells are those of the lines before the first blank line |
| Commands.EditBody | Main.kt:230-253 | a new body has at least one cell and consumes input |
| Commands.EditBodySkip | Main.kt:250-251 | blank lines before the first non-blank one are skipped and change nothing |
| Commands.EditBodyCases | Main.kt:230-253 | from a non-blank first line, input runs out exactly when no line is blank; otherwise the cells are those of the lines before the first blank line |
| Commands.AddFlow | Main.kt:122-175 | add either leaves the list as it was or appends exactly one task: four header cells made from a priority, a valid date and time and today, then at least one body cell |
| Commands.AddFlowCases | Main.kt:130-172 | once priority, date and time are read, add completes exactly when a later line is blank; the list stays as it was exactly when the first body line is blank, and reading resumes after that line |
| Commands.AddFlowAppends | Main.kt:136-172 | with a non-blank first body line, add appends the header cells of the priority, date, time and today, followed by one cell per line before the first blank line, and resumes after it |
| Commands.AddFlowWellFormed | Main.kt:130-172 | add keeps every task with its header cells and at least one body cell |
| Commands.ReplaceWellFormed | Main.kt:211-258 | replacing one task by a well-formed one keeps the list well-formed |
| Commands.EditField | Main.kt:210-258 | an edited task stays well-formed; an unknown field name changes nothing and reads nothing more |
| Commands.EditFieldFrame | Main.kt:211-252 | priority changes only cell 2, time only cell 1, date only cells 0 and 3, and task keeps the four header cells |
| Commands.EditFields | Main.kt:207-260 | the field loop yields a well-formed task and consumes input |
| Commands.FieldNameFixed | Main.kt:203-210 | each field name is its own trimmed, lower-cased form |
| Commands.EditFieldsStop | Main.kt:207-210 | a line that lower-cases to a field name edits that field, and the loop ends there |
| Commands.EditFieldsUnknown | Main.kt:207-258 | a line that names no field once trimmed and lower-cased changes nothing, and the loop asks again |
| Commands.EditFieldsAgain | Main.kt:207-210 | a field name with blanks around it edits that field, and the loop asks for another field |
| Commands.EditPick | Main.kt:199-265 | edit keeps the number of tasks and consumes input |
| Commands.EditPickChangesOne | Main.kt:201-260 | edit succeeds exactly when a line selects a task and the field loop on that task ends; it then replaces exactly that task by the loop's result and leaves every other task as it was |
| Commands.EditPickWellFormed | Main.kt:205-258 | edit keeps the list well-formed |
| Commands.DeletePick | Main.kt:276-286 | delete removes one task and consumes input |
| Commands.DeletePickRemovesOne | Main.kt:278-285 | delete succeeds exactly when a line selects a task; the tasks before it stay and the ones after it move down by one |
| Commands.DeletePickWellFormed | Main.kt:280 | delete keeps the list well-formed |
| Commands.Run | Main.kt:32-52 | a session that ends with `end` saves a well-formed list |
| Commands.RunShowsTableFirst | Main.kt:36-43 | print, and edit or delete on a non-empty list, show the table before anything else; print then goes on with the list unchanged |
| Commands.RunSkips | Main.kt:42-50 | an invalid action, and edit or delete on an empty list, leave the list unchanged and read the next command |
| Commands.RunEnds | Main.kt:44-46 | end saves the list as it stands |
| TaskStore.ReadTask | Main.kt:130-171 | the body loop ends as EnterBody says, with the header cells in front of the body cells |
| TaskStore.TaskList.constructor | Main.kt:12 | the list starts empty |
| TaskStore.TaskList.PrintTasks | Main.kt:177-196 | the lines printed are the rendered table of the current list |
| TaskStore.TaskList.AddTask | Main.kt:122-175 | the list and the remaining input are those of AddFlow, and the list stays well-formed |
| TaskStore.TaskList.DeleteTaskRecursion | Main.kt:276-286 | the list and the remaining input are those of DeletePick |
| TaskStore.TaskList.DeleteTasks | Main.kt:275-294 | an empty list is left alone; otherwise the table is shown and the task is deleted as DeletePick says |
| TaskStore.TaskList.CutToHeaders | Main.kt:227-229 | the chosen task is cut back to its four header cells and nothing else changes |
| TaskStore.TaskList.AppendBody | Main.kt:230-253 | the new body cells are appended to the chosen task as EditBody says, and nothing else changes |
| TaskStore.TaskList.SetDate | Main.kt:216-218 | the date cell gets the framed date and the due cell the matching due marker, and nothing else changes |
| TaskStore.TaskList.ApplyField | Main.kt:210-258 | the chosen task and the remaining input are those of EditField, and every other task is unchanged |
| TaskStore.TaskList.EditTaskRecursion | Main.kt:199-265 | the list and the remaining input are those of EditPick |
| TaskStore.TaskList.EditTasks | Main.kt:198-273 | an empty list is left alone; otherwise the table is shown and the task is edited as EditPick says |
| TaskStore.TaskList.Start | Main.kt:32-52 | whether the session saves, what it shows, and the saved list are those of Run |

## Left out

- Console output: prompts and messages such as "The task is changed" are not modelled. Only the tables `printTasks` prints are recorded.
- Persistence: the Moshi JSON adapter, `tasklist.json`, `loadTasks` and `end`'s file write and `exitProcess` are not modelled. A session that reaches `end` reports the list it would save.
- Loaded tasks: a list loaded from the file is assumed to hold tasks with at least four header cells and one body cell (`AllWellFormed`), which is what `addTask` produces.
- The clock: `Clock.System.now()` in zone UTC+2 is replaced by the parameter `today`.
- Commands.AddFlow: its own contract gives only the shape of the result; when add completes and which cells it appends are stated by Commands.AddFlowCases and Commands.AddFlowAppends.
- Commands.EditFields: its own contract gives only the shape of the result; the stop rule and the re-prompt on an unknown name are stated by Commands.EditFieldsStop, Commands.EditFieldsUnknown and Commands.EditFieldsAgain.
- Commands.Run: one `today` holds for a whole session. The original reads the clock at every `dueTag` call, so in a session that crosses midnight (UTC+2) later tasks are tagged against the new day.
- Calendar.DaysUntil: `LocalDate.daysUntil` clamps its result to the Int range; the model keeps the exact difference. Only its sign is used, and clamping keeps the sign.
- Formatter.FirstBodyCell, Formatter.NextBodyCell, Formatter.EditFirstBodyCell, Formatter.EditNextBodyCell, Text.PadEnd, Text.Chunked: lengths count Unicode scalar values, while the original counts UTF-16 code units. A body line with characters outside the Basic Multilingual Plane (emoji, for example) is therefore cut and padded at different places than in the original, which may also split a surrogate pair.
- Text.ParseInt: only ASCII digits are digits. Kotlin's `toInt` also accepts other Unicode decimal digits.
- Text.Lowercase: maps A to Z, the Kelvin sign and U+0130 as `String.lowercase()` does, and keeps every other character. The original lower-cases such a character to the character itself or to text that contains no ASCII letter. This is exact for the command and field words, which are compared against ASCII words. The locale-dependent case mappings of `lowercase(Locale.getDefault())` are not modelled.
- Text.IsWhitespace: follows the JVM's whitespace set, in which U+180E is not whitespace.
- Validators.FormatDate: prints only the years 0 to 9999, the only years the four-digit date pattern admits.
- The body cells of one task are a value inside the list. Aliasing between the inner `MutableList`s is not modelled; the original never shares them.
- Deep re-prompting recursion can overflow the JVM stack; the model has no stack bound.
- `start`'s mutual recursion: the call back into `start` at the end of each command is modelled as the command loop going on (`Run` and `Start` recursing on the remaining input). The original never returns from these calls.
- ANSI escape sequences: the markers are modelled as constant strings. Their effect on a terminal is not.
