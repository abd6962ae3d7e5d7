# MC_ServerSoft: the deterministic core in Dafny

MC_ServerSoft is a Tkinter desktop tool. It sets up, starts, stops and
configures a Minecraft server. Most of the program is window code, HTTP
requests and process plumbing. Inside its methods sit several pieces of
plain logic, and this project models those pieces and proves what they
promise:

- **Launch command** (`launch.dfy`, module `Launch`):
  - `start_server` turns the RAM field, the free-text argument field and the
    jar name into the argv of the server process: every `nogui` the user
    typed is dropped and exactly one is put last;
  - blank arguments fall back to `-Xmx<r>M -Xms<r>M nogui`;
  - the same default is used by the "reset arguments" box and by the
    `start.bat` that the setup job writes;
  - a small model of the Java launcher's reading of its arguments
    (`JvmTarget`) shows which class or jar each command runs: it passes
    over plain options, takes the value after `-cp`, `-classpath`,
    `--class-path`, `-p` and `--module-path`, and exits on `-version`,
    `--version`, `-help`, `--help`, `-h`, `-?` and `--dry-run`.
- **`server.properties`**:
  - `definitions.dfy`, module `PropertyDefinitions`: the table of 33
    properties the settings window shows;
  - `properties.dfy`, module `Properties`: the file as the lines
    `for line in f` yields, and the window's parser;
  - `settings.dfy`, module `Settings`: the form the window opens with, and
    the save: the form's rows first, then the keys of the old file not
    written yet, then one `k=v` line per item;
  - `serverport.dfy`, module `ServerPort`: the port lookup
    `_get_server_port`, and the file the server setup writes when there is
    none.
- **Configuration** (`config.dfy`, module `Config`; `json.dfy`, module
  `JsonValue`): `load_config` fills in every missing default key of the
  decoded settings file.
- **Process handle** (`lifecycle.dfy`, module `Lifecycle`):
  - the field `server_proc`, set by `start_server` and cleared by the stop
    waiter, the console reader thread and `force_kill_server`;
  - every step that `proc_lock` guards is one atomic step;
  - what `Popen`, `poll` and `wait` report is an input;
  - the state machine is a datatype with functions and lemmas over runs of
    events, and class `Supervisor` holds the same field updated in place.
- **Downloads** (`downloads.dfy`, module `Downloads`):
  - the Forge version list taken from the links of the Maven index;
  - the Fabric version list taken from the decoded JSON reply;
  - the file name a downloaded plugin is saved under.
- **Python semantics** that the above relies on:
  - `pystr.dfy`, module `PyStr`: `strip`, `split`, `split()`, `lower`,
    `isdigit`, `startswith`/`endswith`, `in`;
  - `pyint.dfy`, module `PyInt`: `int()` and `str()`;
  - `ordering.dfy`, module `Ordering`: string ordering, `sorted(...,
    reverse=True)` and `set`;
  - `wrappers.dfy`, module `Wrappers`: `Option`.

`server.properties` is modelled as one of three states (`PropertiesFile`):
absent, present but unreadable (it cannot be opened or is not valid UTF-8),
or readable, as its text after newline translation. The settings file read
by `load_config` has its own three states. A Python `dict`
that is written out is modelled as its items in insertion order, which is
the order Python iterates it in.

## Model

| member | source | states |
|---|---|---|
| Launch.HeapMegabytes | MC_ServerSoft.py:754 | the heap size is the RAM field when it is all digits, otherwise `2048`; either way it is all digits |
| Launch.RemoveNoGui | MC_ServerSoft.py:757 | a word is kept exactly when it was in the list and is not `nogui` in any letter case; the list never grows |
| Launch.RemoveNoGuiAppend | MC_ServerSoft.py:757 | filtering a concatenation is concatenating the filtered parts, so the order of the kept words is preserved |
| Launch.LaunchArgv | MC_ServerSoft.py:757-758 | the argv starts with the executable and ends with `-jar`, the jar and `nogui` |
| Launch.ArgvShape | MC_ServerSoft.py:757-758 | the argv starts with the Java executable and ends with `-jar`, the jar name and `nogui`; a word lies between them exactly when it is a word of the argument text and is not `nogui` |
| Launch.NoGuiOnceLast | MC_ServerSoft.py:739-758 | for a jar found by `*.jar`, `nogui` occurs once after the executable, as the last argument |
| Launch.DefaultArgsWords | MC_ServerSoft.py:752-755 | the default argument text splits into exactly `-Xmx<r>M`, `-Xms<r>M` and `nogui` |
| Launch.DefaultArgv | MC_ServerSoft.py:752-758 | with the default arguments the argv is exactly `[java, -Xmx<r>M, -Xms<r>M, -jar, jar, nogui]` |
| Launch.BlankArgsStart | MC_ServerSoft.py:745-758 | a blank (all-whitespace) argument field starts the server with the default heap options and nothing else |
| Launch.NonBlankArgsKept | MC_ServerSoft.py:752-753 | argument text that is not blank is used as it is once stripped |
| Launch.ResetArgsStart | MC_ServerSoft.py:495-501 | the arguments that the reset box stores start the server exactly as a blank field with the same RAM does |
| Launch.DefaultLaunchRunsJar | MC_ServerSoft.py:752-758 | with the default arguments the Java launcher runs the jar |
| Launch.BatchArgvAsWritten | MC_ServerSoft.py:681-696 | the `start.bat` command as written starts with the executable and ends with `-jar`, the jar and `nogui`, with the argument words unfiltered between them |
| Launch.BatchDefaultRunsNoGui | MC_ServerSoft.py:681-696 | as written, a `start.bat` made with the default arguments makes the launcher run a class named `nogui` |
| Launch.SkipOptions | MC_ServerSoft.py:757-758 | plain options (starting with `-`, and not `-jar`, an option taking a value or one that exits) in front of the rest do not change what the launcher runs |
| Launch.SkipValue | MC_ServerSoft.py:757-758 | an option taking a value, such as `-cp`, is passed over together with the next argument, whatever it is |
| Launch.BatchNoGuiRunsClass | MC_ServerSoft.py:681-696 | as written, any argument text whose words are plain options up to a `nogui` word makes `start.bat` run a class of that name instead of the jar |
| Launch.FilteredArgsRunJar | MC_ServerSoft.py:739-758 | with `nogui` filtered out as `start_server` does (the corrected `start.bat`), any argument text whose other words are plain options runs the jar, and `nogui` occurs once, last |
| PropertyDefinitions.DefinitionKeysPlain | MC_ServerSoft.py:50-84 | every key of the table is non-empty and made of lower-case letters, `-` and `.` |
| PropertyDefinitions.DefinitionKeysDistinct | MC_ServerSoft.py:50-84 | no two rows of the table share a key |
| Properties.SplitLines | MC_ServerSoft.py:1106 | every line the file yields is non-empty and holds `\n` at most at its end |
| Properties.SplitLinesConcat | MC_ServerSoft.py:1106 | the lines the file yields, joined, are the whole text |
| Properties.SplitLinesAppend | MC_ServerSoft.py:1106 | text that ends with a newline is read line by line on its own, whatever follows it |
| Properties.EntryShape | MC_ServerSoft.py:1105-1110 | a line is skipped exactly when it is blank, a comment or has no `=`; otherwise key, `=` and value make up the stripped line and the key holds no `=` |
| Properties.EntryClean | MC_ServerSoft.py:1105-1110 | a key and value read from a line of translated text (no `\r`) can be written as `k=v` and read back |
| Properties.EntryOfLine | MC_ServerSoft.py:1105-1110 | the line `k=v` with any indentation reads back as key `k` and value `v` |
| Properties.ParseProperties | MC_ServerSoft.py:1099-1112 | the loop builds the map of the last entry of each key, and the empty map when there is no file or it cannot be read |
| Properties.CollectAppend | MC_ServerSoft.py:1110 | for two runs of entries, the second run's keys take precedence |
| Properties.ParsedLastWins | MC_ServerSoft.py:1105-1110 | a key is read with the value of the last line that yields it |
| Properties.ParsedFrom | MC_ServerSoft.py:1105-1110 | every key read comes from some line that yields it |
| Properties.ParsedAppend | MC_ServerSoft.py:1106-1110 | the lines of one text followed by those of another are read as one file, the later lines winning |
| Settings.Render | MC_ServerSoft.py:1157-1160 | a check box saves exactly `"true"` when ticked and `"false"` otherwise; a text row saves its text |
| Settings.InitialForm | MC_ServerSoft.py:1137-1147 | the window has one row per definition, and a check box exactly for the boolean ones |
| Settings.InitialFieldShows | MC_ServerSoft.py:1137-1147 | a text row shows the file's value or the default; a check box is ticked exactly when that value reads `true` ignoring case; saving an untouched row and reopening shows the same row |
| Settings.Put | MC_ServerSoft.py:1160 | `d[k] = v`: a new key goes at the end; for an existing key the keys stay as they are, the item at the key's first place becomes `(k, v)` and every other item is unchanged |
| Settings.CarryAll | MC_ServerSoft.py:1162-1168 | the merge keeps the items written so far in front, unchanged, and keeps the keys distinct |
| Settings.CollectForm | MC_ServerSoft.py:1153-1160 | the first save loop yields every definition in order with its row's text |
| Settings.MergeLines | MC_ServerSoft.py:1162-1168 | the second save loop is the merge over the lines of the old file |
| Settings.WriteItems | MC_ServerSoft.py:1171-1173 | the write loop produces one `k=v\n` line per item, in order |
| Settings.SaveSettings | MC_ServerSoft.py:1149-1177 | nothing is written when the server folder is missing, or when the existing file cannot be read (read, merge and write share one `try`); otherwise the written text is the form's items merged with the old file's lines, one line per item |
| Settings.SavedLayout | MC_ServerSoft.py:1153-1173 | the save writes every definition first, in definition order, with its row's text (`"true"`/`"false"` for a check box), and no key twice |
| Settings.CarryKeys | MC_ServerSoft.py:1162-1168 | a key is saved exactly when it is a definition's or some carried line holds it |
| Settings.CarryPrefix | MC_ServerSoft.py:1162-1168 | the merge only appends, so keys from the old file follow in file order |
| Settings.CarryFirst | MC_ServerSoft.py:1162-1168 | a key first carried by a line, and not a definition's, is saved with that line's value |
| Settings.LinesOfSerialize | MC_ServerSoft.py:1171-1173 | the written text of items without `\n` or `\r` reads back as exactly one line `k=v\n` per item |
| Settings.ReadBack | MC_ServerSoft.py:1106-1173 | writing items with distinct, clean keys (no `=`, `\n` or `\r`, no leading whitespace or `#`) and clean values (no `\n` or `\r`, no trailing whitespace) and reading the file in the window gives exactly those items |
| Settings.SavedFixedReadsBack | MC_ServerSoft.py:1149-1173 | with the merge keyed as the window reads the file, reopening after a save shows every row as saved (row texts without `\n` or `\r` and not ending in whitespace) and keeps every key of the old file |
| Settings.SaveKeepsKey | MC_ServerSoft.py:1162-1168 | a key that the old file held is saved by the corrected save |
| Settings.RawCarriedIndented | MC_ServerSoft.py:1165-1167 | the save loop takes an indented key with its indentation, while the window's parser strips it |
| Settings.IndentedSaveItems | MC_ServerSoft.py:1162-1168 | saving over a file with one indented entry appends that entry, indented key and all, after the form's rows |
| Settings.SaveAsWrittenReverts | MC_ServerSoft.py:1162-1168 | as written, saving over a file that holds a window key indented brings back the file's old value on reopening, whatever the row held |
| ServerPort.PortOfLines | MC_ServerSoft.py:996-1003 | without a port line among the lines, the lookup gives 25565 |
| ServerPort.GetServerPort | MC_ServerSoft.py:992-1003 | the loop returns at the first line that holds `=` and, stripped, starts with `server-port`: the integer after its first `=`, or 25565 when that is not an integer, there is no such line, or the file is absent or unreadable |
| ServerPort.PortFirstLine | MC_ServerSoft.py:998-1001 | the first port line decides, whatever follows it |
| ServerPort.PortLineValue | MC_ServerSoft.py:999-1001 | a written `server-port=v` line is a port line that gives the value `v` reads as |
| ServerPort.PortAfterSave | MC_ServerSoft.py:992-1003 | a file whose first two items are `motd` and `server-port`, with values free of `\n` and `\r`, gives the port the second one's value reads as |
| ServerPort.SavedPort | MC_ServerSoft.py:1149-1173 | after a save, with or without the old file merged in, the lookup reads the port that the window's `server-port` row holds, when the first two rows hold no `\n` or `\r` |
| ServerPort.SetupWrite | MC_ServerSoft.py:701-716 | the setup writes `server.properties` exactly when no file is there; an existing file, readable or not, is left alone |
| ServerPort.SetupPort | MC_ServerSoft.py:701-716 | a freshly set-up server listens on 25565 |
| PyInt.ParseIntToString | MC_ServerSoft.py:1001 | `int(str(i)) == i` for every integer |
| PyInt.ParseIntPadded | MC_ServerSoft.py:1001 | `int()` ignores whitespace around the number |
| Config.LoadConfig | MC_ServerSoft.py:296-310 | the loop over `DEFAULT_CONFIG` gives the loaded configuration: a decoded object merged with the defaults, a non-object returned as it is when `in` finds every key, the defaults otherwise |
| Config.LoadedObject | MC_ServerSoft.py:303-306 | a decoded object keeps every value it holds and gains the default of every key it lacks, and nothing else |
| Config.NoFileGivesDefaults | MC_ServerSoft.py:297-310 | a missing or unreadable file gives `DEFAULT_CONFIG` |
| Config.ReloadObject | MC_ServerSoft.py:296-317 | where `load_config` returns an object, saving it and loading it again gives the same configuration |
| Config.LoadedNonObject | MC_ServerSoft.py:299-306 | a file that holds a JSON list of the default key names is returned as a list, not an object |
| Config.CheckedConfig | MC_ServerSoft.py:296-310 | the corrected loader always has every default key, and keeps every value of a decoded object |
| Config.CheckedAgrees | MC_ServerSoft.py:296-310 | the corrected loader agrees with `load_config` wherever that returns an object |
| Config.CheckedReload | MC_ServerSoft.py:296-317 | saving and reloading the corrected configuration changes nothing |
| Lifecycle.StartRules | MC_ServerSoft.py:733-773 | starting while a handle is held is refused and changes nothing; a failed spawn leaves no handle; a successful one holds a process never started before |
| Lifecycle.SendRules | MC_ServerSoft.py:971-983 | blank input, no handle or an exited process write nothing; otherwise the held process gets the stripped command and exactly one newline (a write that raises is not modelled) |
| Lifecycle.StopRules | MC_ServerSoft.py:824-877 | stopping writes `stop\n` only to a running process (a write that raises is not modelled), keeps the handle, and the waiter watches the process held at that moment |
| Lifecycle.StaleStepsHarmless | MC_ServerSoft.py:842-857 | a waiter or corrected reader whose process is not the held one leaves the handle alone; on the held process it clears the handle exactly when the process has exited |
| Lifecycle.StepKeepsNewest | MC_ServerSoft.py:733-924 | every step keeps any held handle the most recently started process |
| Lifecycle.RunKeepsNewest | MC_ServerSoft.py:733-924 | every run of steps keeps any held handle the most recently started process |
| Lifecycle.HeldUntilEnded | MC_ServerSoft.py:808-857 | with the corrected reader, a held process stays held until its own waiter or reader sees it exit or a force-kill comes |
| Lifecycle.StaleReaderLosesNewer | MC_ServerSoft.py:808-819 | as written, the reader of an old process clears the handle of a newer process that nothing ended; the corrected reader keeps it |
| Lifecycle.Supervisor.constructor | MC_ServerSoft.py:347 | the application starts with no handle |
| Lifecycle.Supervisor.StartServer | MC_ServerSoft.py:733-773 | updates the field in place as `Start` says |
| Lifecycle.Supervisor.SendCommand | MC_ServerSoft.py:971-983 | updates the record of written text in place as `Send` says |
| Lifecycle.Supervisor.StopServer | MC_ServerSoft.py:824-877 | sends `stop\n` and returns the process the waiter watches, as `Stop` says |
| Lifecycle.Supervisor.WaiterFinished | MC_ServerSoft.py:842-857 | clears the field only when it still holds the waited-on process and that process exited |
| Lifecycle.Supervisor.ReaderFinishedAsWritten | MC_ServerSoft.py:808-819 | clears the field whenever the reader's process exited |
| Lifecycle.Supervisor.ReaderFinished | MC_ServerSoft.py:808-819 | clears the field only when it still holds the reader's process and that process exited |
| Lifecycle.Supervisor.ForceKillServer | MC_ServerSoft.py:880-926 | always ends with no handle |
| Ordering.SortDesc | MC_ServerSoft.py:187 | `sorted(..., reverse=True)` is a non-increasing permutation of its input |
| Ordering.NonIncreasingUnique | MC_ServerSoft.py:187 | any two non-increasing permutations of the same strings are equal, so the sort is determined |
| Ordering.Distinct | MC_ServerSoft.py:199-207 | the `set` holds exactly the elements of the input, each once |
| Ordering.SortedSet | MC_ServerSoft.py:207-208 | `sorted(set(s), reverse=True)` is strictly decreasing and holds exactly the elements of `s` |
| Downloads.ForgeVersionOfSpec | MC_ServerSoft.py:200-206 | a link yields the text after its first `/net/minecraftforge/forge/` up to the next `/`, when that is not empty; a link without the marker yields nothing |
| Downloads.FetchForgeVersions | MC_ServerSoft.py:190-209 | the loop and the sort give the Forge version list |
| Downloads.ForgeVersionsSorted | MC_ServerSoft.py:190-209 | the Forge list is strictly decreasing, holds exactly the versions some link yields, and each is a non-empty path segment |
| Downloads.FetchFabricVersions | MC_ServerSoft.py:175-188 | the loop and the sort give the Fabric version list |
| Downloads.FabricVersionsSorted | MC_ServerSoft.py:175-188 | a list reply gives a non-increasing arrangement (the same multiset) of the strings its entries contribute, one per contributing entry, and `None` exactly when one contributes a non-string; any other reply gives the empty list |
| Downloads.DirectJarName | MC_ServerSoft.py:217-218 | a direct `.jar` link is saved under a single path component made of the URL's characters |
| Downloads.Fallback | MC_ServerSoft.py:270-271 | the clock-based name ends in `.jar` and holds no separator |
| Downloads.FileNameAsWritten | MC_ServerSoft.py:261-271 | the saved name always ends in `.jar` |
| Downloads.HeaderAsWritten | MC_ServerSoft.py:263-265 | the code takes the text after `filename=`, strips whitespace and then quotes, and cuts it at the first `;` |
| Downloads.FromHeaderAsWritten | MC_ServerSoft.py:261-271 | a non-empty header name decides the saved name: itself when it ends in `.jar`, the clock-based name otherwise |
| Downloads.HeaderPathKept | MC_ServerSoft.py:261-275 | as written, a quoted header name that holds a path is kept whole as the saved name |
| Downloads.EscapingName | MC_ServerSoft.py:261-275 | as written, `filename="../<stem>.jar"` saves the plugin one directory above the plugins folder |
| Downloads.QuotedParamsDropped | MC_ServerSoft.py:265 | as written, a quoted name followed by `;` and more parameters keeps its closing quote, so the plugin is saved under the clock-based name |
| Downloads.SafeName | MC_ServerSoft.py:268-275 | the corrected name is one path component: no `/`, no `\`, not `.` |
| Downloads.PluginFileName | MC_ServerSoft.py:261-275 | the corrected saved name ends in `.jar` and holds no separator, so the file lands inside the plugins folder |
| Downloads.HeaderCorrected | MC_ServerSoft.py:265 | the corrected rule cuts at the first `;` before stripping whitespace and quotes |
| Downloads.FromHeader | MC_ServerSoft.py:261-271 | under the corrected rule a non-empty header name whose last component ends in `.jar` gives that component |
| Downloads.HeaderPathReduced | MC_ServerSoft.py:261-275 | under the corrected rule a quoted header name that holds a path gives its last component |
| Downloads.EscapingNameReduced | MC_ServerSoft.py:261-275 | under the corrected rule `filename="../<stem>.jar"` saves `<stem>.jar` inside the plugins folder |
| Downloads.QuotedHeader | MC_ServerSoft.py:265 | the corrected rule reads `n` from `filename="<n>"` |
| Downloads.QuotedHeaderWithParams | MC_ServerSoft.py:265 | the corrected rule reads `n` from `filename="<n>";<more>` |
| Downloads.QuotedParamsKept | MC_ServerSoft.py:265-271 | under the corrected rule a quoted name followed by parameters is saved under its last component |

## Left out

- The Tkinter windows, message boxes, the splash screen, the console widget and `set_status` are user-interface code.
- The HTTP requests are network I/O. This covers the version APIs (`fetch_paper_versions`, `fetch_purpur_versions`), `download_file_stream`, the Spigot page requests, the Java and server jar downloads of the setup job, UPnP, the IP lookups and the clipboard. The model starts from their results.
- BeautifulSoup is a foreign library. The Forge extraction starts from the `href` values of the links, and the plugin name from the response's `Content-Disposition` header and final URL. How the Spigot download link is found on its pages is not modelled.
- Threads and `proc_lock` are not modelled. Each lock-guarded section, and each callback the window runs later, is one atomic step. Interleavings inside a step are not modelled.
- Real processes are not modelled. `Popen` success, `poll`, `wait` and its timeout are inputs. The effects of `terminate`, `kill`, closing the pipes and `taskkill` are not modelled beyond the handle they leave.
- The console output the reader thread appends, and the time stamps on it, are left out: `timestamp()` reads the clock.
- The file system is outside the model. A file is absent, unreadable or its text. The eula file, the `start.bat` written when no jar is present (comment lines only), and the error paths of writing a file are left out. The same goes for the `save_config` calls that follow each action and for the JSON encoding itself.
- The model does not keep the key order of a JSON object (a `map`), so the order in which `save_config` writes keys is left out.
- Launch.JavaExec: whether the Java field names a directory holding `bin/java.exe` is a file-system question. It is a parameter (`probe`).
- Downloads.Fallback: `int(time.time())` reads the clock. It is a parameter (`now`).
- PyStr.Lower: only ASCII letters are lowered. No other character lowers to a letter of `nogui`, `true` or `.jar`, so the comparisons the program makes with `lower()` come out the same.
- Launch.HeapMegabytes: the RAM field counts as digits only when it is ASCII `0`-`9`. Python's `isdigit()` also accepts other Unicode digits (full-width `４０９６`, superscripts), for which the program builds `-Xmx４０９６M`, an option the JVM rejects; the model uses `2048` there instead.
- Launch.BatchArgvAsWritten: the `start.bat` line is modelled as the whitespace-separated words `cmd.exe` passes on. Its quoting, `%` expansion and the `&`, `|` and `^` operators are not modelled.
- Properties.CleanValue: the read-after-write lemmas (`LinesOfSerialize`, `ReadBack`, `SavedFixedReadsBack`, `PortAfterSave`, `SavedPort`) cover keys and values without `\r`. The program reads with universal newlines, so a written `\r` ends a line, and a `motd` row such as `A\rserver-port=7` changes the port read back. The model does not translate the written text when it is read again, so it says nothing about such rows. The same lemmas cover values that do not end in whitespace: `line.strip()` drops trailing whitespace on reading, so a `motd` row saved as `Hi ` reopens as `Hi`.
- Launch.JvmTarget: only the options named above are modelled as taking a value or exiting. Other launcher options that take a separate value (`--add-modules`, `--upgrade-module-path`, `-m`/`--module`, which also picks what runs), `@argfiles`, and other options that exit are read as plain options. `SkipOptions`, `BatchNoGuiRunsClass` and `FilteredArgsRunJar` hold for this model of the launcher.
- Lifecycle.Send: a write to the process's stdin is assumed to succeed. When it raises, for example because the process died between `poll()` and the write, `send_command` shows an error (:980-989) and `stop_server` ignores it (:832-840). The model still records the text in `sent`.
- Lifecycle.Stop: the `stop` write is likewise assumed to succeed. When it raises, `stop_server` swallows the error (:832-840) and still starts the waiter, as the model does, but the model records `stop\n` in `sent` although nothing reached the process.
- Properties.PropertiesFile: reading either succeeds on the whole file or fails before any line is used. A decoding error part-way through a large file, after the loop has used some lines, is not modelled.
- PyInt.ParseInt: only the ASCII digits `0`-`9` are digits, while Python's `int()` and `isdigit()` also accept other Unicode decimal digits.
- Downloads.PathName: `Path(...).name` is modelled with POSIX path rules, splitting at `/` only. On Windows `Path` also splits at `\` and drive letters. The finding about path names holds under both.
- Downloads.FabricVersions: when a list reply's values are not all strings, the result is `None`. Python raises only when the values cannot be compared with each other. A list of numbers only, or a single non-string value, sorts without error, and the model does not give that result.
- Ordering.Less: strings compare by code point, as Python compares `str`. Comparison of values of other types is left out.

## Findings

| source | as written | input that shows it | evidently intended | confidence | as-written member | corrected member |
|---|---|---|---|---|---|---|
| MC_ServerSoft.py:808-819 | when the reader thread's process has exited, it sets `server_proc = None` without checking that the field still holds that process | start process 0, stop it, let its waiter see it exit, start process 1, then let process 0's reader finish | clear the field only if it still holds the reader's process, as the stop waiter does at :855-857 | medium (a timing window), not executed | Lifecycle.StaleReaderLosesNewer | Lifecycle.HeldUntilEnded |
| MC_ServerSoft.py:1162-1168 | the save merge takes the key as `line.split("=",1)[0]`, indentation included, while the window's parser strips the line first | a file line `  pvp=false` with the `pvp` box ticked: the save writes `pvp=true` and then `  pvp=false`, and reopening shows `false` | compare and carry keys the way the window reads them, so an edited row is not overridden | high, not executed | Settings.SaveAsWrittenReverts | Settings.SavedFixedReadsBack |
| MC_ServerSoft.py:299-306 | `load_config` returns the decoded JSON whatever its type; a list or string in which every default key is found is returned as it is | a settings file holding `["java_path", "args", "install_dir", "ram", "server_type", "version"]` | fall back to the defaults unless the file holds an object | high, not executed | Config.LoadedNonObject | Config.CheckedConfig |
| MC_ServerSoft.py:261-275 | the name from `Content-Disposition` is joined to the plugins folder as it is, path separators included | the header `attachment; filename="../evil.jar"` | save under the name's last path component, inside the plugins folder | high, not executed | Downloads.EscapingName | Downloads.EscapingNameReduced |
| MC_ServerSoft.py:681-696 | `start.bat` puts the argument text, which by default ends in `nogui`, before `-jar` | a blank argument field: `"java" -Xmx2048M -Xms2048M nogui -jar "<jar>" nogui` makes the launcher look for a class named `nogui` | filter `nogui` out of the arguments as `start_server` does at :757 | high, not executed | Launch.BatchNoGuiRunsClass | Launch.FilteredArgsRunJar |
| MC_ServerSoft.py:265 | the quotes are stripped before the header is cut at `;`, so a closing quote followed by parameters stays | the header `attachment; filename="plugin.jar"; size=100` gives `plugin.jar"`, which is not a `.jar` name, so the clock-based name is used | cut at `;` first, then strip whitespace and quotes | high, not executed | Downloads.QuotedParamsDropped | Downloads.QuotedParamsKept |
