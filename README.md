# ehcpi event table and rule parser, modelled in Dafny

ehcpi is a small daemon that watches Linux input devices (power button,
brightness and volume keys, mute, the lid switch) and runs a configured shell
command when one of them reports an event. This project models the core of
its two revisions of `input.c`:

- the **event table** (`evtab`): a fixed array of entries
  `{type, code, value, name, cmd}` whose first four fields are compiled in and
  whose `cmd` goes from NULL to a command string when a rule is read;
- **`input_string`**: the first-match search that maps an event read from a
  device to a command, with the key-repeat rule (a key event of value 2
  matches an entry whatever its value);
- **`ev_needed`**: whether a device is worth watching, decided from its event
  type bitmap and its per-type code bitmaps;
- **rule registration and configuration parsing**, in the two grammars the
  revisions use: `event <name> do <command>` on one line with exact names
  (`input.c`), and an `event=<name>` line followed by an `action=<command>`
  line with prefix names and a duplicate check (`src/input.c`).

Modules:

- `Options` (options.dfy): `Option`, where `None` stands for a NULL pointer.
- `Evdev` (evdev.dfy): the constants of linux/input-event-codes.h the daemon
  uses (EV_KEY = 1, EV_SW = 5, SW_LID = 0, KEY_MUTE = 113, KEY_VOLUMEDOWN =
  114, KEY_VOLUMEUP = 115, KEY_POWER = 116, KEY_CONFIG = 171,
  KEY_BRIGHTNESSDOWN = 224, KEY_BRIGHTNESSUP = 225, KEY_MAX = 0x2ff,
  EV_CNT = 0x20), the C integer widths, the event record, and C's conversion
  of the event's signed value to `unsigned` when it is compared with an entry.
- `EventTable` (event_table.dfy): entries, the specification functions
  `Lookup` and `Needed`, and the class `Table` that owns the array; its
  methods `InputString` and `EvNeeded` are the two C loops, proved equal to
  the specification functions. Both revisions share this module because the
  two functions are the same in both.
- `Lines` (lines.dfy): `strncmp` against a literal, `strstr`, and the
  configuration stream as lines with a read position (getline / fgets).
- `RootInput` (root_input.dfy): `input.c` — its eight-entry catalogue,
  `add_rule`, `parse_rules`.
- `SrcInput` (src_input.dfy): `src/input.c` — its nine-entry catalogue,
  `add_event`, `parse_rules`.

Each C function that changes the table is a method over `Table` (and the
`Stream`) whose postcondition equates the new table and stream position with
a function of the old ones (`RegisterRule`, `Parse`, `RegisterEvent`); what
the code promises is proved about those functions. A process exit (`err`,
`errx`) is a `Fatal` result carrying the reason; `warn` in `src/input.c` is a
list of warned lines returned by `ParseRules`.

Some behaviour of the code worth knowing when reading the model:

- the command is the rest of the line *including* its trailing newline, in
  both revisions (no newline is stripped);
- `input.c` has no duplicate check: registering a name twice replaces its
  command (`RootInput.RegisterReplaces`); only `src/input.c` refuses a
  second rule, and it does so per entry, by name;
- lookup is a linear first-match search, and a key repeat is answered by the
  first entry with the same type and code;
- `src/input.c` selects the first entry whose name is a *prefix* of the text
  after `event=`, not only an entry whose name equals it.

## Model

| member | source | states |
|---|---|---|
| Evdev.AsUnsigned | input.c:70-73 | the event's signed value as the unsigned value it is compared as: unchanged when non-negative, plus 2^32 when negative |
| EventTable.Matches | input.c:66-74 | whether an entry answers an event, with C's unsigned comparison spelled out: same type and code, and for a non-negative value the entry's value or, for a key, the repeat value 2; for a negative value the entry's value must be that value plus 2^32 |
| EventTable.Lookup | input.c:61-78 | the command found for an event is the command of an entry that answers it, and no command is found when no entry answers it |
| EventTable.Relevant | input.c:46-55 | an entry keeps a device iff it has a command and the device declares the entry's type and code |
| EventTable.Needed | input.c:44-58 | a device is needed iff some entry with a command has a type and code the device declares; a table without commands needs no device |
| EventTable.FirstIndex | input.c:64-77 | the search every loop of the table performs: the result is the first index at or after the start whose element satisfies the test, or none satisfies it |
| EventTable.LookupRegistered | input.c:61-78 | in a table where no two entries claim one event, each entry's own (type, code, value) yields exactly that entry's command, and for a key so does the repeat value 2 |
| EventTable.LookupOnlyRegistered | input.c:66-76 | a command is only returned for an entry with the event's type and code and either the event's value or, for a key, the repeat value; so a key release (0) runs nothing when the entries trigger on 1 |
| EventTable.DispatchImpliesNeeded | input.c:44-58 | a device that declares the type and code of an event that would run a command is always kept by `ev_needed` |
| EventTable.Table.constructor | input.c:20-32 | the table array holds exactly the compiled-in entries |
| EventTable.Table.InputString | input.c:61-78 | `input_string` returns the command of the first entry with the event's type and code whose value matches (exactly, or any value for a key repeat), NULL for no match; the same function is src/input.c:67-83 |
| EventTable.Table.EvNeeded | input.c:38-59 | `ev_needed` is true iff some entry has a command, its type bit set in the type bitmap and its code bit set, least significant bit first, in that type's byte bitmap; the same function is src/input.c:45-65 |
| Lines.IndexOf | input.c:120 | `strstr`: the first position at which the pattern occurs, or none when it occurs nowhere |
| Lines.Stream.ReadLine | input.c:109 | reading yields the next line and advances by one, or reports the end and stays |
| RootInput.Catalogue | input.c:20-32 | the compiled-in table has eight entries, none with a command yet |
| RootInput.FindName | input.c:93-96 | the first entry whose name equals the rule's name (strcmp), and none exactly when no entry has that name |
| RootInput.CatalogueWellFormed | input.c:20-32 | the catalogue's names are distinct and no event is claimed by two entries (the two lid entries differ in value) |
| RootInput.RegisterRule | input.c:90-102 | `add_rule` fails iff no entry is named exactly `event`; otherwise only the first such entry's command changes, to `action`, and every type, code, value and name stays |
| RootInput.AddRule | input.c:90-102 | the method returns 0 and updates the table as `RegisterRule`, or returns -1 and leaves it unchanged |
| RootInput.RegisterReplaces | input.c:93-99 | registering a name a second time replaces its command, exactly as if only the second rule had been given |
| RootInput.RegisteredRuleFires | input.c:93-99 | after registering a catalogue name, that entry's event (and a repeat, for a key) looks up the registered command |
| RootInput.ParseLine | input.c:111-123 | a line is skipped iff it is "\n"; it is malformed iff it does not start with "event " or has no " do " after that; otherwise it is "event " + name + " do " + command with no " do " starting inside the name |
| RootInput.ParseFormatted | input.c:116-123 | round trip: a rule line built from a name without spaces and any command parses back to that name and command, newline and all |
| RootInput.Parse | input.c:104-126 | reading lines changes only commands, never reads past the stream, and ends normally only after the last line |
| RootInput.ParseOneLine | input.c:109-125 | each line's effect on the run: "\n" is skipped; a malformed line ends the run reporting that line with the table unchanged; a rule naming no entry ends it reporting the name; any other rule registers and reading goes on with the next line |
| RootInput.ParseSucceeds | input.c:109-126 | a run ends normally exactly when every line from the start position on is blank or a rule naming an entry |
| RootInput.FatalLine | input.c:116-125 | a run that ends in an error stops right after the line that caused it: a malformed line, reported as read, or a rule line whose name no entry has, reported by name |
| RootInput.ParseRules | input.c:104-129 | `parse_rules` leaves the table, the stream position and the outcome that `Parse` gives |
| RootInput.TwoRulesExample | input.c:104-126 | "event power do /bin/foo\n" then "event lid-close do /bin/bar\n" give a power press (and repeat) "/bin/foo\n" and a lid close "/bin/bar\n"; a lid opening still runs nothing |
| RootInput.MissingSeparatorExample | input.c:120-121 | "event power /bin/foo\n" is fatal after one line and registers nothing |
| RootInput.UnknownEventIsFatal | input.c:124-125 | a rule line written for a name no entry has is fatal at whatever position it appears, and the table is unchanged |
| SrcInput.Catalogue | src/input.c:20-34 | the compiled-in table has nine entries, none with a command yet |
| SrcInput.FindPrefix | src/input.c:87-89 | the first entry whose name is a prefix of the text after "event=" (strncmp over the name's length), and none exactly when no name is |
| SrcInput.CatalogueUnambiguous | src/input.c:20-34 | no event is claimed by two of the nine entries |
| SrcInput.CataloguePrefixFree | src/input.c:20-34 | no entry's name starts with another entry's name |
| SrcInput.PrefixSelects | src/input.c:87-89 | any text starting with a catalogue name selects that name's entry, whatever follows the name |
| SrcInput.RegisterEvent | src/input.c:85-107 | `add_event`: with no name prefixing the text it returns -1 and reads nothing; for the first selected entry, a command already set aborts before reading, a missing next line aborts, a next line without "action=" is consumed and returns -1, and otherwise the rest of that line becomes the entry's command; nothing but that command changes |
| SrcInput.AddEvent | src/input.c:85-107 | the method leaves the outcome, table and stream position that `RegisterEvent` gives |
| SrcInput.Parse | src/input.c:109-122 | reading lines never changes a command once set, changes only commands, keeps every earlier warning, and ends normally only after the last line |
| SrcInput.ParseRules | src/input.c:109-122 | `parse_rules` leaves the outcome, table, stream position and warnings that `Parse` gives |
| SrcInput.IgnoredLine | src/input.c:114-116 | a line not starting with "event=" is passed over without a warning |
| SrcInput.UnknownEventWarns | src/input.c:116-119 | an event line naming no entry draws a warning and the very next line is parsed as usual |
| SrcInput.DuplicateAborts | src/input.c:91-92 | a rule for an entry that already has a command ends the process with the table unchanged, before its action line is read |
| SrcInput.MissingActionWarns | src/input.c:95-98 | an event line followed by a non-"action=" line draws a warning; that line is consumed and the table is unchanged |
| SrcInput.EventAtEndFails | src/input.c:95-96 | an event line with nothing after it ends the process when the action line cannot be read |
| SrcInput.RuleRegisters | src/input.c:97-103 | an event line and an "action=" line register the text after "action=", newline included, and parsing continues after them |
| SrcInput.RegisteredRuleFires | src/input.c:67-83 | after a rule, the entry's event (and a repeat, for a key) looks up the registered command |
| SrcInput.DuplicateExample | src/input.c:85-122 | two rules for the power button: the process ends at the third line and the first command stays |
| SrcInput.WarningExample | src/input.c:109-122 | a rule without an action line and a rule for an unknown name are warned about and skipped; a later rule for mute registers and the run completes |

## Left out

- src/ehcpi.c is not part of this model: daemonising, option parsing, device discovery in /dev/input, the epoll loop, signal handling and running commands with `system()` are operating-system plumbing around `input_string` and `ev_needed`.
- The `ioctl(EVIOCGBIT)` calls of `ev_needed` and their failure path: the bitmaps they return are parameters (`DeviceCaps`), so a failed ioctl, which ends the process, is not modelled.
- Bytes of the 96-byte code bitmap that the kernel does not fill are uninitialised in C; the model takes all 96 bytes as given.
- `1 << type` is an `int` shift in C; for a type of 31 it would set the high bits of the mask. The model tests bit `type` of the 64-bit bitmap; no table entry has a type above 5.
- `free_rules`, `strdup` and its failure, and the buffer management of `getline`: memory management, with no effect on the table's contents.
- `evtab_init` in src/input.c has an empty body.
- The 4192-byte `fgets` buffer of src/input.c, which splits longer lines in two: lines are taken whole.
- Read errors of `getline` and `fgets`: the stream only ends; it never fails.
- C strings stop at a NUL byte; the model compares whole lines, so it treats configuration lines as free of NUL bytes.
- The text of the messages printed by `err`, `errx` and `warn`, and `errno`: the model records the reason and the offending line or name.
- src/input.h only declares the functions (and declares `input_string` with a pointer argument while both definitions take the event by value); the definitions are modelled.
- src/input.c reads the type bitmap again for every entry; the model reads it once, which agrees as long as the device's capabilities do not change during the call.
