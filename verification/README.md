# bt-sync, modelled in Dafny

bt-sync moves Bluetooth pairings from a Windows installation to Linux, so a
dual-booted machine does not have to re-pair its devices. It reads the
Windows `SYSTEM` registry hive. The `Devices` key maps each device's
address key to its display name. The `Keys` key holds each device's long
term key (LTK), `ERand` and `EDIV`. From these bt-sync builds one record per
display name. It then walks BlueZ's state directory, `/var/lib/bluetooth/<adapter>/<device>/info`.
Every device directory whose `info` file names a device with a record is
handled the same way:
- its `[LongTermKey]` section is rewritten with the record's values;
- the directory is renamed to the record's MAC;
- a report row is kept.

An adapter that had any update restarts the Bluetooth service.

The project models that core as pure functions over immutable data:

- `Wrappers`: `Option` and `Result`.
- `Text`: the Rust string operations the code relies on.
  - `str::lines`, including its `\r\n` handling.
  - `split`, `join`, `trim`, `split_whitespace`, `starts_with` and `ends_with`.
  - ASCII case mapping.
- `Bytes`: bytes, `u32` and `u64`.
  - `{:02X}` hexadecimal, and `{}` decimal for numbers.
  - The parsers these formats invert.
- `Utf8`: `std::str::from_utf8` as a decoder of well-formed UTF-8, with the encoder it inverts.
- `Registry`: a registry hive as a tree of named keys holding typed values.
  - `subpath` and `value` lookups.
  - The `Small`/`Big` data split of `nt_hive`.
- `Folds`: a `HashMap` filled by `insert` in loop order, where the last insert wins.
- `Bluetooth`: `src/bluetooth.rs`.
  - The device record.
  - `get_ltk`, `fmt_mac` and `update_bt_info`.
  - The `Name=` lookup of `read_device_info`.
  - The pass of `process_directories` over one adapter's device directories.
  - `process_bth_device` and `process_bluetooth_devices`.
- `Hive`: `parse_reg` of `src/hive.rs`.
  - The name map.
  - The record extraction with its error paths.
- `Lib`: the older entry points of `src/lib.rs`.
  - `fmt_mac` by index steps.
  - The LTK map of the first `parse_reg`.
  - `update_ltk`.
  - The line filter of `list_ntfs_mounts`.

File-system access is replaced by data:
- A device directory is its name, whether it is a directory, and its `info` text.
- An adapter is its name and its device directories, in the order `read_dir` yields them.
- A run's result is the directories as left behind, the report, and whether the service is restarted.

The lemmas about line-oriented text assume the text contains no carriage return. The functions themselves handle carriage returns as Rust does.

Three behaviours of the code are worth knowing before reading the model:
- `update_bt_info` ends every line it writes with a line feed, so a file without a final line feed gains one.
- The Bluetooth service is restarted once for every adapter directory that had an update, so a run over several adapters can restart it several times.
- One `ERand` or `EDIV` value that cannot be read aborts `parse_reg`, even on a key that would not have produced a record.

## Model

| member | source | states |
|---|---|---|
| `Bluetooth.GetLtk` | src/bluetooth.rs:17-29 | the definition: the loop over `c.lines()` with the header flag, classified line by line; what it returns is stated by `Bluetooth.GetLtkFinds` and `Bluetooth.GetLtkNone` |
| `Bluetooth.GetLtkFinds` | src/bluetooth.rs:17-29 | when a line starting with `Key=` follows a line that trims to `[LongTermKey]`, `get_ltk` returns the text after `Key=` on the first such line |
| `Bluetooth.GetLtkNone` | src/bluetooth.rs:28 | with no `Key=` line after a `[LongTermKey]` line, `get_ltk` returns the empty string |
| `Bluetooth.GetLtkScanFinds` | src/bluetooth.rs:19-27 | the loop started at any line, with the header flag matching the lines before it, stops at the first key line after a header and returns that line's key |
| `Bluetooth.GetLtkScanNone` | src/bluetooth.rs:19-28 | the loop started at any line, with no key line after a header from there on, falls through to the empty string |
| `Bluetooth.HeaderFirstChar` | src/bluetooth.rs:20 | a line that trims to `[LongTermKey]` is non-empty and begins with `[` or with whitespace |
| `Bluetooth.FmtMac` | src/bluetooth.rs:31-37 | the formatted MAC has one colon after every two characters of the name, the other characters being the name's upper-cased in order; an odd-length name ends in a single character |
| `Bluetooth.FmtMacShape` | src/bluetooth.rs:32-36 | chunking by two, upper-casing each chunk and joining with `:` produces exactly that colon-separated shape for every name |
| `Bluetooth.FieldName` | src/bluetooth.rs:49 | the field name is the longest prefix without `=`, and it is followed by `=` unless it is the whole line |
| `Bluetooth.SectionStep` | src/bluetooth.rs:44-46 | a line starting with `[` enters the section exactly when it is `[LongTermKey]`; any other line stays in the section state of the line before it |
| `Bluetooth.SectionLines` | src/bluetooth.rs:43-59 | the output has one line per input line; a line inside the `[LongTermKey]` section gets the field replacement and every other line is copied |
| `Bluetooth.UpdateBtInfo` | src/bluetooth.rs:39-62 | an empty file stays empty and any other file comes out ending in a line feed |
| `Bluetooth.UpdateBtInfoLines` | src/bluetooth.rs:43-59 | read back by lines, the output has the input's lines in order, with the section's `Key`, `EDiv` and `Rand` lines holding the record's values and every line terminated by a line feed |
| `Bluetooth.ReplaceFieldKeepsBracket` | src/bluetooth.rs:44-54 | a rewritten line starts with `[` exactly when the original did, and a `[` line is never rewritten, so the sections stay where they were |
| `Bluetooth.ReplaceFieldTwice` | src/bluetooth.rs:49-54 | rewriting an already rewritten field line changes nothing |
| `Bluetooth.SectionAgree` | src/bluetooth.rs:44-46 | two files that agree on their `[` lines have the `[LongTermKey]` section in the same places |
| `Bluetooth.UpdateBtInfoIdempotent` | src/bluetooth.rs:39-62 | applying `update_bt_info` to its own output with the same record gives that output back |
| `Bluetooth.ReplaceFieldKeepsHeader` | src/bluetooth.rs:49-54 | the field rewrite never turns a line into one that trims to `[LongTermKey]`, nor the reverse |
| `Bluetooth.KindOfReplaceField` | src/bluetooth.rs:49-54 | the field rewrite never makes or removes a header, and every `Key=` line it leaves holds the record's key |
| `Bluetooth.GetLtkOfUpdateBtInfo` | src/bluetooth.rs:39-62 | after `update_bt_info`, `get_ltk` reads back the record's key when the first header is exactly `[LongTermKey]` and the first key line after it lies inside that section |
| `Bluetooth.ReadDeviceName` | src/bluetooth.rs:118-127 | the definition: the name is taken from the pieces of the content between line feeds, the first one starting with `Name=`; its meaning is stated by `Bluetooth.NameInFirst` and `Bluetooth.ReadDeviceNameOfLines` |
| `Bluetooth.NameInFirst` | src/bluetooth.rs:121-123 | no name is found exactly when no line starts with `Name=`; otherwise the name is the rest of the first line that does |
| `Bluetooth.ReadDeviceNameOfLines` | src/bluetooth.rs:121 | on text without carriage returns, the multi-line `^Name=(.*)$` match finds the same name as a scan of the text's lines |
| `Bluetooth.ReadDeviceNameOfTerminate` | src/bluetooth.rs:121 | lines each followed by a line feed give the name the lines themselves give |
| `Bluetooth.ReplaceFieldKeepsName` | src/bluetooth.rs:49-54 | the field rewrite keeps every `Name=` line and creates none |
| `Bluetooth.ReadDeviceNameOfUpdate` | src/bluetooth.rs:118-127 | the name `read_device_info` finds is the same before and after `update_bt_info` |
| `Bluetooth.IsValidDeviceDirectory` | src/bluetooth.rs:114-116 | the definition: an entry is a candidate exactly when it is a directory and its name contains `:` |
| `Bluetooth.MatchOf` | src/bluetooth.rs:101-103 | the definition: a candidate whose `info` yields a name with a record matches under that name; anything else does not match |
| `Bluetooth.UpdatedDir` | src/bluetooth.rs:136-138 | the definition: a matched directory gets the `update_bt_info` rewrite of its `info` and is renamed to the record's MAC |
| `Bluetooth.AuditOf` | src/bluetooth.rs:140-148 | the definition: the report row is the old directory name, the record's MAC, `get_ltk` of the old `info`, and the record's LTK |
| `Bluetooth.ProcessDirectories` | src/bluetooth.rs:90-112 | each entry is handled on its own: a directory whose name has a colon and whose `info` names a device with a record gets its `info` rewritten and its name set to the record's MAC; every other entry is left as it is; there are updates exactly when some entry matched |
| `Bluetooth.ProcessDirectoriesAudit` | src/bluetooth.rs:140-148 | the report has a row for exactly the names some directory matched, and each row holds the old directory name, the new MAC, the old key and the new key of the last directory matched by that name |
| `Bluetooth.AfterPassTwice` | src/bluetooth.rs:101-106 | a directory handled twice with the same records ends where it was after the first time, because it keeps its name and its rewritten `info` is a fixed point |
| `Bluetooth.ProcessDirectoriesTwice` | src/bluetooth.rs:90-112 | a second pass with the same records over what the first pass left changes no directory |
| `Bluetooth.ProcessBthDevice` | src/bluetooth.rs:76-88 | the service is restarted and the report shown exactly when some directory matched; the directories are what the pass left |
| `Bluetooth.NoRestartNoChange` | src/bluetooth.rs:80-83 | an adapter directory that does not restart the service was left exactly as it was |
| `Bluetooth.ProcessBluetoothDevices` | src/bluetooth.rs:175-190 | with no record nothing changes and nothing restarts; otherwise every adapter directory keeps its name and its devices become what `process_directories` leaves of them, a non-directory entry is skipped, and an adapter restarts the service exactly when one of its devices matched |
| `Bluetooth.QuietRun` | src/bluetooth.rs:182-187 | when no device of any adapter matches, a run leaves every adapter as it was and restarts nothing |
| `Hive.NameBytes` | src/hive.rs:31 | the name bytes are the prefix of the value's bytes before the first zero byte, or all of them when there is none |
| `Hive.NameBytesBeforeZero` | src/hive.rs:31 | bytes without a zero followed by a zero byte and anything else cut back to exactly those bytes |
| `Hive.NameOfTerminated` | src/hive.rs:29-31 | a NUL-free name stored as UTF-8 followed by a zero byte and padding reads back as that name |
| `Hive.TextOf` | src/hive.rs:31 | the text the unwrapped UTF-8 conversion yields encodes back to exactly the bytes it was read from |
| `Hive.NameMap` | src/hive.rs:23-36 | the definition: the last-wins insertion, in order, of each device key's decoded `Name` under the key's name; its contents are stated by `Hive.NameMapEntries` |
| `Hive.NameMapEntries` | src/hive.rs:23-36 | the name map has an entry for exactly the device keys holding a `Name` value in one cell; each entry holds the name of the last such key with that key name |
| `Hive.Numbers` | src/hive.rs:58-64 | reading `ERand` and `EDIV` fails exactly when one is present but not readable as its width, `ERand` first; otherwise each is its value, or 0 when absent |
| `Hive.LtkOf` | src/hive.rs:52-56 | the key is empty without a one-cell `LTK` value; otherwise it is upper-case hexadecimal, two digits per byte |
| `Hive.LtkOfBytes` | src/hive.rs:54 | the hexadecimal key reads back as the `LTK` bytes |
| `Hive.Record` | src/hive.rs:68-73 | the record's `erand` and `ediv` are decimal digits that read back as the numbers |
| `Hive.RecordShape` | src/hive.rs:66-73 | a record carries the formatted key name as its MAC, a non-empty even-length upper-case hexadecimal key, and `0` for zero numbers |
| `Hive.FirstBad` | src/hive.rs:58-64 | finds the first device key whose `ERand` or `EDIV` cannot be read, all keys before it being readable |
| `Hive.RecordsLoop` | src/hive.rs:38-79 | the definition: the loop over the device keys that reads each key's numbers, stops at the first unreadable one, and inserts the record of each eligible key; its result is stated by `Hive.RecordsLoopIs` |
| `Hive.RecordsLoopIs` | src/hive.rs:38-79 | with all numbers readable, the loop is the last-wins insertion of every eligible key's record under its display name; otherwise it stops with the error of the first unreadable key |
| `Hive.ParseReg` | src/hive.rs:10-14 | without a hive file the result is the empty map, and a successful result means every device key's numbers were readable |
| `Hive.ParseRegRecords` | src/hive.rs:38-79 | `parse_reg` fails exactly when some device key has an unreadable number; otherwise its map has an entry for exactly the display names of keys with an LTK and a name, and each holds the record of the last such key |
| `Hive.RecordsMap` | src/hive.rs:66-75 | the inserts give an entry for exactly the display names of eligible keys, each holding the record of the last key with that name |
| `Hive.LeavesAreDepthTwo` | src/hive.rs:40-45 | the keys examined are exactly the subkeys of the subkeys of `Keys` |
| `Registry.Subkey` | src/hive.rs:25 | a lookup by name finds a child with that name, and fails exactly when no child has it |
| `Registry.Subpath` | src/hive.rs:40 | an empty path is the key itself, and a found key has the last name of the path |
| `Registry.SmallData` | src/hive.rs:52-53 | the bytes of a value are found exactly when the value exists and its data sits in one cell |
| `Registry.FlattenOnly` | src/hive.rs:41-45 | every key of the flattened listing is a subkey of one of the listed keys |
| `Folds.LastWinsDomain` | src/hive.rs:68 | after the inserts, the map's keys are its earlier keys and the keys inserted under |
| `Folds.LastWinsLast` | src/hive.rs:68 | after the inserts, a key holds the value of the last insert under it |
| `Folds.LastWinsUntouched` | src/hive.rs:32 | a key never inserted under keeps its earlier value |
| `Utf8.DecodeOfEncode` | src/hive.rs:31 | every string is read back from its UTF-8 encoding |
| `Utf8.EncodeOfDecode` | src/hive.rs:31 | bytes accepted as UTF-8 are exactly the encoding of the text they decode to |
| `Utf8.EncodeNoZero` | src/hive.rs:31 | the encoding of a string without NUL holds no zero byte, so the cut at the first zero keeps all of it |
| `Bytes.HexByte` | src/hive.rs:54 | `{:02X}` of a byte is two upper-case hexadecimal digits worth that byte |
| `Bytes.ParseHexOfHex` | src/hive.rs:54 | the hexadecimal text of a byte string reads back as those bytes |
| `Bytes.Decimal` | src/hive.rs:71-72 | `{}` of a number is non-empty decimal digits without a leading zero, `0` for zero |
| `Bytes.ParseDecimalOfDecimal` | src/hive.rs:71-72 | the decimal text of a number reads back as that number |
| `Text.LinesOfJoin` | src/bluetooth.rs:43 | lines without line breaks, joined by line feeds, read back by `lines` as themselves, less a blank last line |
| `Text.JoinOfSplit` | src/lib.rs:76 | splitting at a separator and joining with it gives the text back |
| `Text.SplitWhitespaceOfJoin` | src/lib.rs:129 | tokens joined by single spaces split back on whitespace into those tokens |
| `Lib.Pairs` | src/lib.rs:12-14 | stepping by two over an even length gives the two-character slices at even offsets |
| `Lib.FmtMac` | src/lib.rs:11-18 | an empty name formats to the empty string, and any other name to three characters for each pair, less one |
| `Lib.FmtMacChars` | src/lib.rs:11-18 | every third character is a colon and the others are the name's characters upper-cased, in order |
| `Lib.StepsAreChunks` | src/lib.rs:12-14 | on even lengths, slicing at even offsets gives the same pieces as chunking by two |
| `Lib.FmtMacAgrees` | src/lib.rs:11-18 | on every even-length ASCII name, the index-step `fmt_mac` agrees with the chunking `fmt_mac` of src/bluetooth.rs |
| `Lib.FmtMacExample` | tests/integration_test.rs:12-15 | `fmt_mac("1234567890ab")` is `12:34:56:78:90:AB` |
| `Lib.LtkHex` | src/lib.rs:49 | the key is upper-case hexadecimal, two digits per byte, and reads back as the `LTK` bytes |
| `Lib.LtkKeys` | src/lib.rs:40-51 | a device key inserts exactly when it has a REG_BINARY `LTK` in one cell, and it inserts under its formatted name |
| `Lib.LtkLoopIsLastWins` | src/lib.rs:31-59 | the loop is the last-wins insertion of each such key's hexadecimal LTK under its formatted name, every other key skipped |
| `Lib.LtkMap` | src/lib.rs:20-62 | the definition: the loop of the first `parse_reg` run over every key two levels below `Keys`, starting from the empty map; its contents are stated by `Lib.LtkMapEntries` |
| `Lib.LtkMapEntries` | src/lib.rs:20-62 | the LTK map has an entry for exactly the formatted names of device keys with a binary LTK, each holding the hexadecimal LTK of the last key formatting to it |
| `Lib.UpdateLtk` | src/lib.rs:64-82 | the definition as written: the updated lines joined by line feeds, with a line feed added when the input ended with one and the join does not; its behaviour is stated by `Lib.UpdateLtkTrailingNewline`, `Lib.UpdateLtkIdempotentIff` and `Lib.GetLtkOfUpdateLtk` |
| `Lib.UpdateLtkKeepingNewline` | src/lib.rs:77-81 | the corrected definition: the same join, with a line feed added whenever the input ended with one; its behaviour is stated by `Lib.KeepingNewlineShape` and `Lib.KeepingNewlineIdempotent` |
| `Lib.LtkScanLines` | src/lib.rs:67-76 | the mapped lines keep their count; a line starting with `Key=` after a line trimming to `[LongTermKey]` becomes `Key=<ltk>`, and every other line is kept |
| `Lib.UpdatedLinesAre` | src/lib.rs:67-76 | the same, for the whole input from the first line with the flag clear |
| `Lib.UpdatedLinesTwice` | src/lib.rs:67-76 | mapping the updated lines, or any prefix of them, again changes nothing |
| `Lib.JoinedEndsWithNewline` | src/lib.rs:76-77 | the joined lines end with a line feed exactly when the input has two or more lines and the last is blank |
| `Lib.EndsInBlankLine` | src/lib.rs:66 | text ends in two line feeds exactly when it ends in one and its last line is blank |
| `Lib.UpdateLtkDropsNewline` | src/lib.rs:77-81 | `update_ltk` agrees with the corrected version unless the input ends in two line feeds, where it returns one line feed fewer |
| `Lib.UpdateLtkTrailingNewline` | src/lib.rs:66-81 | the output ends with a line feed exactly when the input does, unless the input ends in two line feeds |
| `Lib.UpdateLtkIdempotentPlain` | src/lib.rs:64-82 | on input not ending in two line feeds, a second `update_ltk` changes nothing |
| `Lib.UpdateLtkIdempotentBlank` | src/lib.rs:64-82 | on input ending in two line feeds, a second `update_ltk` changes nothing exactly when the input does not end in three |
| `Lib.BlankLastLine` | src/lib.rs:76-81 | updated lines ending in a blank one join to the lines before it plus a line feed, and a second `update_ltk` keeps that line feed only when the line before the blank one is blank too |
| `Lib.UpdateLtkIdempotentIff` | src/lib.rs:64-82 | `update_ltk` is idempotent exactly on input that does not end in three line feeds |
| `Lib.KeepingNewlineShape` | src/lib.rs:64-82 | the corrected output reads back as the updated lines and ends with a line feed exactly when the input does |
| `Lib.KeepingNewlineIdempotent` | src/lib.rs:64-82 | the corrected `update_ltk` applied to its own output changes nothing |
| `Lib.KeepingNewlineNoCr` | src/lib.rs:64-82 | the corrected output contains no carriage return |
| `Lib.KeepingNewlineNoBlank` | src/lib.rs:64-82 | the corrected output ends in two line feeds exactly when the input does |
| `Lib.GetLtkOfUpdateLtk` | src/lib.rs:64-82 | when the input has a key line after a header, `get_ltk` reads the new key back from the output of both versions of `update_ltk` |
| `Lib.UpdateLtkNoKeyLine` | src/lib.rs:64-82 | without a key line after a header, the corrected version returns its input unchanged; the version as written does too unless the input ends in two line feeds |
| `Lib.UpdateKeyFile` | src/lib.rs:64-82 | on a header and a key line ending with a line feed, `update_ltk` writes the new key and keeps the line feed |
| `Lib.UpdateKeyFileBlank` | src/lib.rs:77-81 | on a header, a key line and a blank line, `update_ltk` drops the blank line, where the corrected version keeps it |
| `Lib.UpdateLtkExample` | tests/integration_test.rs:40-45 | `update_ltk("[LongTermKey]\nKey=OldLTK\n", "NewLTK")` is `[LongTermKey]\nKey=NewLTK\n` |
| `Lib.NtfsTypeIff` | src/lib.rs:130 | a type is kept exactly when it spells `ntfs` or `ntfs3` in any mix of letter cases |
| `Lib.MountOf` | src/lib.rs:128-135 | whatever a kept line yields is two tokens: each is non-empty and contains no whitespace (which fields, and when a line is kept, is stated by `Lib.MountOfLine`) |
| `Lib.MountsOf` | src/lib.rs:127-135 | the listing yields at most one mount per line |
| `Lib.MountsOfAppend` | src/lib.rs:128-135 | filtering two pieces of a listing in turn is filtering the whole listing, in order |
| `Lib.ListNtfsMounts` | src/lib.rs:123-136 | the definition: the line filter applied to the lines of the `mount` output; what it reports is stated by `Lib.MountsOfMember` and `Lib.MountOfLine` |
| `Lib.MountsOfMember` | src/lib.rs:123-136 | a device and mount point are reported exactly when some line of the listing is an NTFS mount of them |
| `Lib.MountOfLine` | src/lib.rs:129-134 | a `<device> on <dir> type <type> <options>` line is kept exactly when its type is NTFS, and then yields its device and mount point |
| `Lib.MountExampleNtfs` | src/lib.rs:130 | a mount of type `NTFS3` is reported despite the upper case |
| `Lib.MountExampleFuse` | src/lib.rs:130 | a `fuseblk` mount, as `ntfs-3g` shows up, is not reported |

## Left out

- File and process I/O are replaced by data: opening and reading the hive, `read_dir`, `read_to_string`, `fs::write`, `fs::rename`, `Command::new("mount")` and `systemctl`. So are their failures and the `?` and `let _ =` handling of those failures. The order `read_dir` yields entries in is a parameter: the entry sequence.
- `nt_hive` decoding: the hive is given as an already-decoded tree of keys. The library's own errors cannot arise. These are the enumerate, name and data `?` errors of src/hive.rs:27-30 and 42-53, and the `map_err` paths of src/lib.rs:21-42. The `unwrap` calls on `root_key_node`, `subpath` and `val` become the requirement that those keys exist. A value's `qword_data`/`dword_data` outcome is a field of the value, and an absent reading is the `ERand`/`EDIV` error path.
- Registry name lookups are modelled as exact string comparison. The registry compares names without regard to case.
- The regex engine: `(?m)^Name=(.*)$` is modelled as the rest of the first piece between line feeds that starts with `Name=`. That is what the pattern matches, since `.` stops only at a line feed.
- Printing and colouring: every `println!`/`eprintln!`, `print_update_results`, and the table parse_reg prints at src/hive.rs:81-88. The report itself is modelled as the map it prints.
- `restart_bluetooth_service` and its `TESTING` environment switch are modelled as a flag saying whether the restart happens.
- `find_and_mount_ntfs_partitions` and src/partitions.rs are not part of this model. Neither are src/main.rs, `process_single_device` (src/lib.rs:84-121) or the `process_bluetooth_devices` of src/lib.rs:138-187. The records of `process_bluetooth_devices` in src/bluetooth.rs are a parameter.
- Renaming a directory while `read_dir` walks its parent: the model visits each entry of the listing once and never sees a renamed directory again.
- `from_utf8_lossy` of the `mount` output: the listing is taken as text.
- Case mapping is ASCII only (`Text.Upper`, `Text.Lower`). For the `ntfs`/`ntfs3` comparison this changes no verdict. Only two non-ASCII characters lower-case to ASCII letters (KELVIN SIGN to `k`, and LATIN CAPITAL LETTER I WITH DOT ABOVE to `i` and a combining dot), and neither letter occurs in `ntfs3`. `fmt_mac` is applied to registry key names, which are hexadecimal addresses.
- Lib.FmtMacAgrees: covers only even-length ASCII names. Non-ASCII names on which the index-step `fmt_mac` does not panic are left out, because the model's strings are characters, not the bytes Rust slices.
- Lib.FmtMac: requires an even-length ASCII name. The index-step `fmt_mac` panics on an odd length, or on a slice that is not on a character boundary. The model does not state exactly which non-ASCII names would still work.
- Bluetooth.FmtMac: requires an ASCII name. `from_utf8(chunk).unwrap()` panics on a chunk that splits a multi-byte character, and the model does not describe which non-ASCII names avoid that.
- Lib.LtkMapEntries: requires every key with a binary LTK to have an even-length ASCII name (`Lib.MacsFormattable`). That is a condition under which `fmt_mac` cannot panic, sufficient but not necessary: a non-ASCII name sliced on character boundaries, such as `éé`, does not panic either.
- Hive.ParseRegRecords: requires every displayed name to be valid UTF-8 and every eligible key name to be ASCII (`Hive.ParsableHive`). The source panics on a `Name` that is not UTF-8, at its `from_utf8(..).unwrap()`. ASCII key names are a sufficient condition for `fmt_mac` not to panic, not the exact one: a name such as `é`, one two-byte chunk, is formatted without a panic.
- The lemmas about line-oriented text require the text to contain no carriage return (`'\r' !in c`). `str::lines` strips a `\r` before a line feed, and the lemmas do not describe what that does to round trips.

## Findings

| source | as written | input that shows it | evidently intended | confidence | as-written member | corrected member |
|---|---|---|---|---|---|---|
| src/lib.rs:77-81 | `update_ltk` adds a final line feed only when the joined lines do not already end in one. When the input ends in a blank line, the join ends in a line feed, which is one line feed fewer than the input had. The output therefore loses the blank line, and a second call drops another line feed, so the function is not idempotent on input ending in three line feeds. | `update_ltk("[LongTermKey]\nKey=K\n\n", "N")` returns `[LongTermKey]\nKey=N\n`. The trailing blank line is gone. | Keep the input's line structure: append a line feed whenever the input ended with one. | not executed | `Lib.UpdateKeyFileBlank` | `Lib.KeepingNewlineIdempotent` |
