# Order bot and command log — a Dafny model

This project models the logic of a small Discord bot that formats
food-delivery order commands. It covers two Python files.

- `bot.py`:
  - `parse_fields` reads the order embed.
  - `normalize_name` shortens the customer's name.
  - `is_valid_field` decides which fields are usable.
  - The three slash commands `fusion_assist`, `fusion_order` and
    `wool_order` check the caller, find the order embed, take a card (and
    an email) from the pools, and reply with the formatted command: an
    `order_details:` part, then `override_name`, `override_aptorsuite`,
    `override_notes` and `override_dropoff` parts joined by single spaces,
    and a tip line.
- `logging_utils.py`:
  - `log_command_output` builds the record of one command. The card is cut
    to its last four characters, the CVV is stored as it is, and additional
    data defaults to an empty mapping.
  - `_log_to_csv` projects that record onto an 11-column row.
  - `get_log_stats` summarises a month's log: the number of commands, the
    count per command type, the distinct users, and the earliest and latest
    timestamp.

Modules, leaves first:

- `Wrappers`: `Option`, standing for Python's `None` or a value.
- `PyStr`: the Python `str` operations the code relies on, defined from
  their Python behaviour:
  - `strip()`, `split()` and `isspace()`;
  - `replace(',', '')` and `lower()`;
  - `in` on strings, `s[-4:]`;
  - `' '.join` and `','.join`;
  - `<` on strings.
- `OrderFormat`: the pure part of `bot.py`.
  - `ParseFields`, `NormalizeName` and `IsValidField`.
  - The `order_details` text of each command.
  - `Overrides`, the override parts the handlers append.
- `OrderBot`: the handlers as methods.
  - They run against a `Pool` object whose `cards` and `emails` sequences
    stand for the database tables, oldest record first.
  - Taking a record removes the head, or returns `None` on an empty pool.
- `LogEntries`: the log record, `BuildLogEntry`, and the CSV row `CsvRow`.
- `LogStats`: `GetLogStats`, the aggregation loop as a method over the
  month's records.

`log_command_output` stores the CVV as it is (logging_utils.py:51); the
model follows the code.

## Model

| member | source | states |
|---|---|---|
| PyStr.LStripSpec | bot.py:36-39 | the left strip keeps a suffix that starts with a non-whitespace character and drops only whitespace |
| PyStr.RStripSpec | bot.py:36-39 | the right strip keeps a prefix that ends with a non-whitespace character and drops only whitespace |
| PyStr.StripTrimmed | bot.py:36-39 | `strip()` leaves no whitespace at either end (Python's `isspace` set) |
| PyStr.StripIsSlice | bot.py:36-39 | `strip()` returns one contiguous slice of its input |
| PyStr.StripDropsOnlySpace | bot.py:36-39 | everything `strip()` drops on either side is whitespace |
| PyStr.StripEmptyIffAllSpace | bot.py:57 | `v.strip()` is empty exactly when `v` is empty or all whitespace |
| PyStr.StripIdempotent | bot.py:98 | stripping the already stripped notes again changes nothing |
| PyStr.Words | bot.py:46 | every word `split()` returns is non-empty |
| PyStr.WordsNoSpace | bot.py:46 | no word `split()` returns holds whitespace |
| PyStr.WordsKeepEveryOtherChar | bot.py:46 | gluing the words of `split()` together gives the input with its whitespace removed |
| PyStr.WordsEmptyIffAllSpace | bot.py:46 | `split()` returns no word exactly when the input is empty or all whitespace |
| PyStr.WordsIgnoreStrip | bot.py:45-46 | `s.strip().split()` equals `s.split()` |
| PyStr.WordsCharsFromInput | bot.py:46 | every character of every word comes from the input |
| PyStr.WordsOfJoin | bot.py:46 | `split()` of words joined by single spaces gives back exactly those words: words are whole runs of non-whitespace, never pieces of one |
| PyStr.RemoveAllSpec | bot.py:45 | `replace(',', '')` leaves no comma and keeps every other character |
| PyStr.Lower | bot.py:57 | `lower()` keeps the length |
| PyStr.LowerChars | bot.py:57 | `lower()` maps each character on its own, leaves no upper-case ASCII letter, and keeps every other character |
| PyStr.LastChars | logging_utils.py:50 | `s[-n:]` for `n > 0` is the suffix of length `min(n, len(s))` |
| PyStr.SplitOnJoinWith | bot.py:92 | splitting a comma-join on commas gives back the fields when none holds a comma |
| PyStr.JoinLength | bot.py:107 | `' '.join(parts)` is as long as the parts plus one space between each pair of neighbours |
| PyStr.JoinLayout | bot.py:107 | `' '.join(parts)` puts every part at its offset with exactly one space after each part but the last |
| PyStr.LessIrreflexive | logging_utils.py:191 | no timestamp compares below itself |
| PyStr.LessTransitive | logging_utils.py:191-194 | string `<` is transitive |
| PyStr.LessTotal | logging_utils.py:191-194 | any two distinct strings are ordered one way or the other |
| OrderFormat.FieldMapSpec | bot.py:33 | the dict comprehension has exactly the field titles as keys, each mapped to the value of the last field with that title |
| OrderFormat.ParseFields | bot.py:32-40 | the link is `None` exactly when absent, otherwise the unstripped value of the last field with that title; name, addr2, notes and tip are each `''` when absent, otherwise the stripped value of the last field with their title, and have no whitespace at either end |
| OrderFormat.ParseFieldsLastWins | bot.py:33-39 | with a repeated title, the value parsed for name, addr2, notes or tip is the stripped text of the last field with that title |
| OrderFormat.FieldText | bot.py:36-39 | `data.get(key, '').strip()` is `''` for a missing title, otherwise the stripped text of the last field with that title |
| OrderFormat.NormalizeNameCases | bot.py:43-52 | two or more words give the first two joined by one space; one word `w` gives `w + ' ' + w[0]`, and `w` is then all the name's non-blank text; `''` exactly when the name is only whitespace and commas |
| OrderFormat.NormalizeNameHasNoComma | bot.py:45-52 | the result never contains a comma |
| OrderFormat.StripKeepsOut | bot.py:45-46 | stripping the comma-free name brings no comma back |
| OrderFormat.WordsKeepOut | bot.py:46 | no word of the comma-free name holds a comma |
| OrderFormat.IsValidFieldExactly | bot.py:55-57 | a field is usable exactly when it is non-empty and, stripped, does not spell `n/a` or `none` in any case; a whitespace-only value is usable |
| OrderFormat.LowerIsNA | bot.py:57 | `lower()` of a string equals `n/a` exactly when the string spells `n/a` in some case |
| OrderFormat.LowerIsNone | bot.py:57 | the same for `none` |
| OrderFormat.OrderDetailsRoundTrip | bot.py:182 | for the wool line and for the `order_details` text of lines 92 and 137 alike: with no comma in link, card or email, the `order_details` text splits back into link, number, expiry, CVV, zip code (and email), in that order |
| OrderFormat.OverridesOrdered | bot.py:93-105 | the override parts come in the order name, apt/suite, notes, drop-off, at most four of them |
| OrderFormat.BasesRankZero | bot.py:92 | the `order_details` part (here and at line 137) is never mistaken for an override part |
| OrderFormat.CommandPartsOrdered | bot.py:92-105 | the whole parts list (here and at lines 137-150) is the `order_details` part followed by the override parts in that order |
| OrderFormat.MeetAtDoorRule | bot.py:99-101 | the Meet-at-Door drop-off is present exactly when the notes are usable and read `meet at door` in any case, and then it is the only notes part |
| OrderFormat.NotesPartRule | bot.py:99-103 | an `override_notes` part is present exactly when the notes are usable and not `meet at door`, and it carries the notes as written |
| OrderFormat.LeaveAtDoorRule | bot.py:102-105 | the Leave-at-Door drop-off is present exactly when the notes are usable, not `meet at door`, and contain `leave` in any case; it then follows the notes part |
| OrderFormat.NameRule | bot.py:93-95 | a usable name gives a first override part `override_name:` plus the normalised name; otherwise no name part |
| OrderFormat.AptPresentRule | bot.py:96-97 | a usable second address line gives an `override_aptorsuite:` part carrying it |
| OrderFormat.AptAbsentRule | bot.py:96-97 | an unusable one gives no part of that kind |
| OrderBot.Pool.TakeCard | bot.py:85 | the oldest card is removed and returned; an empty pool returns `None` and is left as it was |
| OrderBot.Pool.TakeEmail | bot.py:131 | the same for the email pool |
| OrderBot.AssembleParts | bot.py:92-105 | the appended list is the `order_details` part followed by exactly the override parts |
| OrderBot.NotesPartsOf | bot.py:98-105 | the notes branch appends exactly the notes and drop-off parts |
| OrderBot.FormatAssist | bot.py:91-110 | the reply is the code-fenced space-joined parts and the tip line |
| OrderBot.FormatFusionOrder | bot.py:136-155 | the same for `fusion_order` |
| OrderBot.FusionAssist | bot.py:74-110 | a non-owner, a missing embed or an empty card pool get their rejection and leave both pools unchanged; otherwise exactly the oldest card is used up; the email pool is never touched |
| OrderBot.FusionOrder | bot.py:114-155 | the same rejections consume nothing; with cards but no email, the oldest card is still used up and the reply is "Email pool is empty"; otherwise exactly one card and one email are used up |
| OrderBot.WoolOrder | bot.py:159-186 | the same gates and the same card-before-email order as `fusion_order`; the reply is the single comma-separated wool line in a code block, then the tip line |
| LogEntries.BuildLogEntry | logging_utils.py:41-54 | `card_used` is present exactly when a card is given, and then it is the last `min(4, len)` characters of the number; the CVV is stored when a card is given; additional data defaults to `{}`; the other fields pass through |
| LogEntries.LongNumberIsMasked | logging_utils.py:50 | a number longer than four characters never reaches the record; only its last four do |
| LogEntries.CsvRow | logging_utils.py:91-113 | the row has one cell per header, in header order, each taken from the record key of that name, with `card_used` under `card_last4` |
| LogStats.GetLogStats | logging_utils.py:159-197 | a missing file gives only the error message. Otherwise: `total_commands` is the number of records; `command_types` maps exactly the types that occur to their occurrence counts, and these sum to the total; `users` are the distinct usernames; `unique_users` is their number and at most the total; `start` and `end` are `None` for no records, otherwise timestamps from the records, no later and no earlier than any of them |
| LogStats.TallyAll | logging_utils.py:165-194 | after the loop, `total_commands` is the number of records and the counts, users and date range are those of all records |
| LogStats.Tally | logging_utils.py:174-194 | one turn of the loop keeps the counts, users and date range correct for the records seen so far plus the new one |
| LogStats.CountCommandType | logging_utils.py:176-177 | counting a record raises its type's count by one and the sum of all counts by one |
| LogStats.TrackDateRange | logging_utils.py:190-194 | comparing a new timestamp keeps `start` the least and `end` the greatest timestamp seen |
| LogStats.UsersStep | logging_utils.py:187 | adding a record's username keeps `users` the set of usernames seen, no larger than the number of records |
| LogStats.SumValuesUpdate | logging_utils.py:177 | setting one type's count changes the sum of counts by the difference |

## Left out

- `fetch_order_embed` (bot.py:24-29) reads the channel history. The model takes its result as an input: `None`, or the embed's fields.
- The owner check reads `OWNER_ID` from the environment (bot.py:12, 60-61). `OWNER_ID` is a parameter of each handler.
- Sending the reply is left out: the handlers return the reply text. So are the ephemeral flag, `on_ready`, `load_dotenv` and `bot.run`.
- `db.py` is not part of this model. `get_and_remove_card` and `get_and_remove_email` are modelled as taking the head of a sequence, oldest first. Nothing is claimed about atomicity, concurrency or SQLite ordering.
- `addpool.py` and `add_to_pool.py` are thin `sqlite3` wrappers and are not modelled.
- The file side of `logging_utils.py` is left out:
  - the JSON read-modify-write, the CSV and TXT appends and the TXT layout;
  - the header-if-new-file check;
  - `os.makedirs`;
  - `datetime.now()` and the file names built from it.
  The record's timestamp is a parameter, and a month's JSON log is `None` (missing) or its list of records.
- LogStats.GetLogStats: does not compute `total_tips`, because it is a floating-point sum with a `ValueError` fallback. It also leaves out the `except` path for an unreadable file, and returns `users` as a set instead of a list.
- LogEntries.CsvRow: gives the cells, not the quoted CSV text that `csv.writer` produces.
- LogEntries.BuildLogEntry: `additional_data` values are modelled as strings.
- PyStr.Lower: lowers ASCII letters only. Every comparison the bot makes with it is still exact: no other character lowers to text that can equal or contain `n/a`, `none`, `meet at door` or `leave`.
