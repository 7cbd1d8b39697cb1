# Linux Services Manager — a Dafny model of its pure core

The Linux Services Manager is a terminal menu over `systemctl`. It lists the
system's services, searches them, and runs start, stop, restart, disable and
log commands for the unit the user picks. Its only real logic is a small pure
layer inside `main.py`:

- the lines of `systemctl list-units` become 5-field records (`line.split(None, 4)`);
- `list_services` sorts those records by `(active != 'running', unit)`;
- `find_service` keeps the records whose lower-cased unit or description
  contains the lower-cased keyword;
- `find_service` and `check_service_details` offer numbered choices and look
  up the chosen entry by index;
- `check_service_details` lists the first token of every non-blank line;
- `find_service` shows the unit file taken from `systemctl show` output;
- `manage_service` maps a menu choice to the command lines it runs, with a
  syslog-grep fallback when a journalctl query prints nothing.

This project models that layer with immutable sequences and pure functions,
and proves what it promises. Captured process output enters as a string
parameter. A command is its argv, a `seq<string>`.

Modules, one per concern, one file each:

| file | module | contents |
|---|---|---|
| `wrappers.dfy` | `Wrappers` | `Option` |
| `text.dfy` | `Text` | `str.isspace`, `strip`, `split(None, n)`, ASCII `lower`, substring test |
| `lines.dfy` | `Lines` | `str.splitlines` |
| `services.dfy` | `Services` | the record, the line parser, the parse loop |
| `ordering.dfy` | `Ordering` | Python string and tuple order, the stable sort |
| `listing.dfy` | `Listing` | `list_services` up to the table |
| `search.dfy` | `Search` | the keyword filter of `find_service` |
| `decimal.dfy` | `Decimal` | `str(i)` and `int(choice)` |
| `menus.dfy` | `Menus` | choice lists, selection, unit names, `FragmentPath`, `find_service` |
| `manage.dfy` | `Manage` | the `manage_service` dispatch table and fallback |

Modelling choices:

- `str.split(None, 4)` is modelled exactly as CPython does it:
  - leading whitespace is skipped;
  - at most four cuts are made, each at a whitespace run;
  - the remainder loses its leading whitespace and keeps its trailing whitespace.
- Whitespace is Python's full `str.isspace` set, not only ASCII.
- The sort is an insertion sort. `Ordering.StableSortIsUnique` proves that
  every sorted arrangement that keeps the listing order of equal keys is this
  one, so Python's timsort, which is stable, produces the same list.
- Services.NginxExample writes its row as a concatenation of words and
  single spaces; that is the same string as the row written out.
- `Prompt.ask(..., choices=...)` only returns a listed choice. Functions that
  act on a choice therefore require it to be one of the listed choices.

## Model

| member | source | states |
|---|---|---|
| Text.SplitWhitespace | main.py:24 | at most `maxsplit + 1` parts, none empty; every part before the last is whitespace-free; a final part that is reached by `maxsplit` cuts starts with a non-space |
| Text.SplitWhitespaceCount | main.py:24-25 | the number of parts is the number of whitespace-separated words, capped at `maxsplit + 1`; so `len(parts) == 5` exactly when the line has at least five words |
| Text.WordCountZero | main.py:180 | a string has no words exactly when it is all whitespace |
| Text.Strip | main.py:80 | the result is a slice of the input with only whitespace cut from either end, starts and ends with a non-space, and is empty exactly when the input is all whitespace |
| Text.ContainsIff | main.py:54 | the `in` test holds exactly when the needle occurs at some index of the haystack |
| Text.ContainsEmpty | main.py:54 | the empty string is in every string |
| Lines.SplitLines | main.py:14 | no line holds a line-boundary character |
| Lines.SplitLinesTerminated | main.py:14 | splitting newline-terminated text returns exactly its lines |
| Lines.SplitLinesSingle | main.py:14 | text without a boundary is one line, or no line when it is empty |
| Services.ParseLine | main.py:24-27 | a record comes out exactly when the line has at least five words; its unit, load, active and sub fields are non-empty and whitespace-free, and its description starts with a non-space |
| Services.ParseLayout | main.py:24-26 | a line laid out from a well-formed record and any whitespace gaps parses back to that record, so a description keeps its inner and trailing whitespace |
| Services.ParsedLayout | main.py:24-26 | every line that parses is its record's fields joined by whitespace gaps, behind a whitespace-only lead |
| Services.NginxExample | main.py:24-26 | a typical `systemctl list-units` row for nginx parses to its five fields, the description "A high performance web server" in one piece |
| Services.ParseLines | main.py:22-27 | at most one record per line, every record well formed |
| Services.LineContribution | main.py:23-27 | a line adds its own record ahead of those of later lines when it has at least five words, and adds nothing when it has fewer |
| Services.ParseLinesAppend | main.py:22-27 | parsing two pieces of a listing gives the first piece's records, then the second's |
| Services.ParseLinesMembers | main.py:22-27 | a record is in the result exactly when some line parses to it |
| Services.ParseStep | main.py:23-27 | one more line extends the parsed records by that line's record, or by nothing when it does not parse |
| Services.CollectServices | main.py:22-27 | the loop that appends the record of every 5-part line computes the parsed records |
| Ordering.StrLessIrreflexive | main.py:29 | no string is less than itself |
| Ordering.StrLessAsymmetric | main.py:29 | two strings are never each less than the other |
| Ordering.StrLessTransitive | main.py:29 | Python's string `<` is transitive |
| Ordering.StrLessTotal | main.py:29 | of two different strings one is less than the other |
| Ordering.KeyLessIrreflexive | main.py:29 | no sort key is less than itself |
| Ordering.KeyLessAsymmetric | main.py:29 | two sort keys are never each less than the other |
| Ordering.KeyLessTransitive | main.py:29 | the tuple order on `(active != 'running', unit)` is transitive |
| Ordering.KeyAtLeastTransitive | main.py:29 | "not less than" is transitive on sort keys |
| Ordering.KeyLessTotal | main.py:29 | of two different sort keys one is less than the other |
| Ordering.SortPermutes | main.py:29 | the sorted list is a permutation of the records: same multiset |
| Ordering.SortSorted | main.py:29 | no record of the sorted list has a smaller key than one before it |
| Ordering.SortStable | main.py:29 | for every key, the records with that key appear in their original order |
| Ordering.SortedUnique | main.py:29 | two sorted lists with the same records per key, in the same order, are equal |
| Ordering.StableSortIsUnique | main.py:29 | any sorted arrangement that keeps the order of equal keys is the model's sort, so every stable sort gives this list |
| Ordering.RunningFirst | main.py:29 | every record whose ACTIVE field is "running" precedes every record whose ACTIVE field is not, and unit names never decrease within either group |
| Listing.ListServicesSpec | main.py:20-29 | the table rows are the parsed records, as a multiset, sorted by key, with equal keys in listing order |
| Listing.AllLinesParse | main.py:22-27 | when every line has five fields, there is one record per line |
| Search.MatchingMembers | main.py:50-55 | a record is a match exactly when it is a parsed record and its lower-cased unit or description contains the keyword |
| Search.MatchingIsSubsequence | main.py:50-55 | the matches are a subsequence of the records, in listing order |
| Search.MatchingAppend | main.py:50-55 | filtering two pieces of a listing is filtering each piece and joining the results |
| Search.EmptyKeywordMatchesAll | main.py:46-55 | an empty keyword keeps every record |
| Search.MatchesKeywordIff | main.py:54 | a record matches exactly when the keyword occurs at some index of its lower-cased unit or of its lower-cased description |
| Search.MatchingStep | main.py:50-55 | one more line extends the matches by that line's record when it parses and matches, and by nothing otherwise |
| Search.FindMatches | main.py:46-55 | the loop's result is the filter with the lower-cased keyword over the parsed records |
| Search.SshExample | main.py:46-55 | searching "ssh" among the OpenSSH and D-Bus records keeps the OpenSSH record only |
| Decimal.NatToString | main.py:67 | `str(i)` is a non-empty string of digits without a leading zero |
| Decimal.ParseDecimal | main.py:71 | `int` accepts exactly the non-empty strings of digits |
| Decimal.ParseNatToString | main.py:67-71 | `int(str(i)) == i` |
| Decimal.NatToStringInjective | main.py:67-71 | different numbers have different numerals, so no two numbered choices coincide |
| Menus.NumberedChoicesIff | main.py:67 | the numbered choices are exactly the numerals of 1 to n |
| Menus.LetterIsNotNumbered | main.py:67-69 | a letter choice such as "H" or "E" is never also a numbered choice |
| Menus.ChoiceNumber | main.py:71 | a numbered choice names a number k with 1 <= k <= n whose numeral it is |
| Menus.SelectMatch | main.py:65-71 | "H" and only "H" returns home; choice k picks the unit of match k - 1, always in bounds |
| Menus.SelectService | main.py:190-199 | "H" and only "H" returns home, "E" and only "E" exits; choice k picks name k - 1, always in bounds |
| Menus.FirstWord | main.py:180 | the name taken from a non-blank line is non-empty and whitespace-free |
| Menus.FirstWordLayout | main.py:180 | that name follows only whitespace and ends at a word boundary |
| Menus.SplitFirstAgrees | main.py:180 | `split(None, m)[0]` is the same for every m >= 1 |
| Menus.FirstWordIsUnit | main.py:180 | on a line that parses, the listed name is the unit of the line's record |
| Menus.UnitNames | main.py:180 | at most one name per line, every name a non-empty whitespace-free word |
| Menus.UnitNamesMembers | main.py:180 | a name is listed exactly when some non-blank line starts with it |
| Menus.UnitNamesStep | main.py:180 | one more line in front adds its first word ahead of the later lines' names when it is not all whitespace, and nothing when it is |
| Menus.UnitNamesAppend | main.py:180 | the names of two pieces of a listing are the first piece's names, then the second's |
| Menus.IndexOf | main.py:80 | the index of the first "=", or the length when there is none |
| Menus.AfterFirst | main.py:80 | `split(c, 1)[-1]`: without `c` the whole text; otherwise the suffix that directly follows a `c` with no other `c` before it |
| Menus.AfterFirstOfJoin | main.py:80 | splitting "KEY" + c + "VALUE" at the first c gives back VALUE when KEY holds no c, whatever VALUE holds |
| Menus.FragmentValue | main.py:80 | without "=" the result is the stripped output; otherwise it is the suffix of the stripped output that directly follows an "=" with no other "=" before it |
| Menus.StripTrailing | main.py:80 | stripping text that starts and ends with a non-space, plus trailing whitespace, gives back the text |
| Menus.FragmentOfShowOutput | main.py:76-80 | for output "FragmentPath=PATH" and a line end, the unit file shown is PATH |
| Menus.FindService | main.py:44-80 | no match returns before any choice is offered; "H" returns; otherwise the chosen unit is a match for the keyword, its status and `FragmentPath` are queried, and the unit file is the fragment value |
| Manage.ManageStep | main.py:104-171 | "H" returns, "E" exits, and every numbered choice runs exactly the command lines of its branch of the `if`/`elif` chain, at least one, the first started through `sudo` or `journalctl` |
| Manage.NumberedManageChoices | main.py:104 | the numbered management choices are "1" to "10" |
| Manage.ControlChoices | main.py:118-129 | choice k in 1 to 4 runs only `sudo systemctl` with the k-th of start, stop, restart, disable on the unit |
| Manage.NumberedChoicesAct | main.py:104-171 | every numbered management choice selects a branch of the `if`/`elif` chain |
| Manage.RunFirstProgram | main.py:118-171 | every branch runs at least one command, the first started through `sudo` or `journalctl` |
| Manage.CapturedIsQuery | main.py:130-165 | exactly choices 5, 7 and 8 are captured journalctl queries |
| Manage.QueryChoices | main.py:130-165 | choices 5, 7 and 8 first run `journalctl -u UNIT --no-pager` with `-n 100`, `-b` and `-p err` |
| Manage.BlankIffAllSpace | main.py:137 | the output is blank after stripping exactly when it is all whitespace |
| Manage.QueryBlank | main.py:137-140 | a query whose output is all whitespace is followed by the syslog grep |
| Manage.QueryNotBlank | main.py:137-138 | a query whose output has a non-space character runs alone |
| Manage.QueryFallbackCount | main.py:114-140 | a query is followed by the grep exactly once when its output is all whitespace, and never otherwise |
| Manage.RunFallbackCount | main.py:114-171 | of all branches only a captured query can run the grep, once at most |
| Manage.FallbackExactlyOnce | main.py:114-171 | the syslog grep is run exactly once when choice 5, 7 or 8 printed only whitespace, and never otherwise |
| Manage.FallbackFollowsQuery | main.py:130-165 | a blank query is followed by the grep and nothing else |
| Manage.OutputIrrelevant | main.py:118-171 | choices other than 5, 7 and 8 do not depend on the captured output |
| Manage.LogChoices | main.py:141-171 | choice 6 runs `journalctl -u UNIT -f`; choices 9 and 10 run `sudo tail -n 100` on `/var/log/syslog` and on `/var/log/messages` |
| Manage.RawLogsIgnoreUnit | main.py:166-171 | choices 9 and 10 run the same command whatever the unit |
| Manage.QueryNamesUnit | main.py:114-165 | every command of a captured query carries the unit name |
| Manage.RunNamesUnit | main.py:118-165 | every command of a branch other than a raw log tail carries the unit name |
| Manage.UnitChoicesNameUnit | main.py:118-165 | every command of choices 1 to 8 carries the unit name |

## Left out

- Process execution (`subprocess.run`, `sudo`, exit codes): commands are argv sequences, and captured output is a string parameter.
- The `systemctl list-units` call itself (main.py:11-13): its output is the `listing` parameter.
- The `rich` console, the table, `console.clear`, `input()` pauses and printed messages: presentation only.
- `Prompt.ask` validation loops: the model requires the choice to be a listed one, which is all the code after the prompt relies on.
- `Prompt.ask` strips the typed reply of surrounding whitespace before returning it. The stripping is not modelled: the `keyword` parameter of Menus.FindService is the reply `Prompt.ask` returned, already stripped.
- `sys.exit`, the endless menu loops, and the `try`/`except` in `main` (main.py:203-230): control flow with no result beyond the dispatch modelled here.
- The main-menu entry mapping "2" to `manage_service`: it is never called through the table, because choice "2" goes to `check_service_details` instead.
- Text.Lower: folds only ASCII `A`-`Z`; Python's `str.lower` also folds other letters. Search.MatchingMembers and Search.FindMatches inherit this simplification.
- Decimal.ParseDecimal: accepts only ASCII digits. Python's `int` also accepts other Unicode digits, signs, surrounding whitespace and `_` digit separators, but every numbered choice is a plain ASCII numeral.
- Ordering.SortServices: an insertion sort rather than timsort; Ordering.StableSortIsUnique shows the result is the same.
