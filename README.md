# ssh-stuff: the `SshConfig` store of `ghost-ssh`

`ghost-ssh.rb` keeps host entries in the user's `~/.ssh/config`. Its class
`SshConfig` reads the file into records (`list`, `parse`), writes records back
sorted by host (`write`), and offers `find_by_host`, `delete`, `empty!` and
`add` on top of those. Every operation reads the whole file and, when it
writes, rewrites the whole file.

This project models that class in Dafny:

- `wrappers.dfy`: `Option` (Ruby's `nil`) and `Result` (a value, or an
  exception raised).
- `text.dfy` (module `Text`): the string operations the class relies on.
  - `String#strip` and `String#split(" ")`, with Ruby's sets of white-space
    characters.
  - `split("\n")`, which drops trailing empty fields, and `Array#join("\n")`.
  - `downcase` on ASCII.
- `records.dfy` (module `HostRecords`): reading and laying out records.
  - The record and the `/Host (.*)/` capture.
  - The key/value table of a block, where a later line overrides an earlier one.
  - The block grouping of `list` and the line layout of `write`.
- `ordering.dfy` (module `HostOrder`): the host order of
  `sort! { |a,b| a.host <=> b.host }`.
  - An insertion sort proved sorted and a permutation.
  - A proof that the sorted order is unique when hosts are unique.
- `roundtrip.dfy` (module `RoundTrip`): reading back a written file gives the
  written records, sorted by host.
- `store.dfy` (module `SshConfigStore`): the operations on the file.
  - `find`, `delete_if` and the failure of `sort!` on mixed nil and string
    hosts.
  - The effect of `delete` and `add` on the file's text (`DeleteSpec`,
    `AddSpec`) and their properties.
  - The class `SshConfigFile`, whose field `text` is the file. Its methods
    follow the Ruby methods statement by statement, and each is proved
    against the functions above.

Two behaviours of the code worth noting:

- The duplicate error raised by `add` carries a fixed message that does not
  name the host (ghost-ssh.rb:62).
- A block whose first line has no `Host ` is still parsed, into a record
  with a nil host (ghost-ssh.rb:31 and ghost-ssh.rb:97).

## Model

| member | source | states |
|---|---|---|
| Text.Strip | ghost-ssh.rb:30 | `String#strip`: removes Ruby's white space, NUL included, from both ends |
| Text.Tokens | ghost-ssh.rb:103 | `String#split(" ")`: the maximal runs of characters other than ASCII white space |
| Text.Lines | ghost-ssh.rb:23 | `split("\n")`: the pieces between line feeds, without trailing empty pieces; no piece holds a line feed and the last is non-empty |
| Text.Join | ghost-ssh.rb:93 | `join("\n")`: the lines with a line feed between each two |
| Text.Lower | ghost-ssh.rb:104 | `downcase` on ASCII letters |
| Text.StripSpec | ghost-ssh.rb:30 | `strip` of a line is empty exactly when every character is Ruby white space (NUL included); otherwise the result starts and ends with non-white-space |
| Text.StripPadded | ghost-ssh.rb:101 | stripping white-space padding from around a string that neither begins nor ends with white space gives back that string |
| Text.TokensAreTokens | ghost-ssh.rb:103 | every field `split(" ")` returns is non-empty and free of separator white space |
| Text.TokensEmpty | ghost-ssh.rb:103 | `split(" ")` returns no field exactly when the string is all separator white space |
| Text.TokensOfPair | ghost-ssh.rb:103 | splitting `key value`, both tokens, gives exactly `[key, value]` |
| Text.SplitJoin | ghost-ssh.rb:23 | splitting at every line feed, keeping empty pieces, undoes `join("\n")` on any non-empty list of lines without line feeds |
| Text.LinesOfJoin | ghost-ssh.rb:23 | lines joined with a trailing empty element (what `write` produces) split back into the same lines |
| HostRecords.HostOf | ghost-ssh.rb:97 | `config.first[/Host (.*)/, 1]`: what follows the leftmost `Host ` up to the next line feed, or nil |
| HostRecords.LineEntry | ghost-ssh.rb:101-104 | one body line: nothing for a blank line, otherwise the lower-cased first token as key and the second token, or nil, as value |
| HostRecords.ParseAll | ghost-ssh.rb:22-39 | `list` on the file's text: one record per block of non-blank lines, in file order |
| HostRecords.BodyLines | ghost-ssh.rb:85-89 | the lines `write` prints for one record before the empty separator |
| HostRecords.Render | ghost-ssh.rb:84-93 | the text `write` prints for records already in order |
| HostRecords.HostOfFirstOccurrence | ghost-ssh.rb:97 | the host is nil exactly when the first line has no `Host `; otherwise it is the text after the leftmost occurrence, up to the next line feed |
| HostRecords.LineEntrySpec | ghost-ssh.rb:100-104 | a body line adds a table entry exactly when it is not blank, and the value it adds is a single token or nil |
| HostRecords.FieldsOfHasKey | ghost-ssh.rb:98-105 | a key is in the table exactly when some body line carries it |
| HostRecords.FieldsOfLastWins | ghost-ssh.rb:104 | the value stored under a key is the one on the last line carrying that key |
| HostRecords.FieldValuesAreTokens | ghost-ssh.rb:103-104 | every value in the table is a single white-space-free token |
| HostRecords.ParseBlock | ghost-ssh.rb:96-110 | the record's host comes from the first line only; its fields are tokens taken from the later lines |
| HostRecords.Group | ghost-ssh.rb:28-36 | the grouping loop yields only non-empty blocks of non-blank lines |
| HostRecords.GroupKeepsLines | ghost-ssh.rb:28-36 | the blocks, read in order, are exactly the non-blank lines of the file in file order |
| HostRecords.NoRecordsIffAllBlank | ghost-ssh.rb:22-39 | `list` returns no record exactly when every line of the file is blank |
| HostRecords.RenderNothing | ghost-ssh.rb:70-72 | writing no records makes the file empty, and an empty file holds no record |
| HostRecords.RenderLinesAppend | ghost-ssh.rb:84-91 | the lines printed for two runs of records are the lines of the first run followed by those of the second |
| HostOrder.LexLe | ghost-ssh.rb:83 | `String#<=>` as "less or equal": character by character, a proper prefix first |
| HostOrder.HostLe | ghost-ssh.rb:83 | `a.host <=> b.host` as "less or equal", on hosts `sort!` can compare |
| HostOrder.Serialize | ghost-ssh.rb:80-93 | the text `write` prints: the records sorted by host, laid out as blocks |
| HostOrder.HostLeTotalOrder | ghost-ssh.rb:83 | the `<=>` order on hosts is total and transitive, and antisymmetric |
| HostOrder.InsertSorted | ghost-ssh.rb:83 | inserting a record into sorted records keeps them sorted and adds exactly that record |
| HostOrder.SortByHost | ghost-ssh.rb:83 | the sorted records are in ascending host order and are a permutation of the input |
| HostOrder.SortSortedIsIdentity | ghost-ssh.rb:83 | sorting records that are already in host order changes nothing |
| HostOrder.SortedPermutationUnique | ghost-ssh.rb:83 | with unique hosts, any two host-sorted permutations of the same records are equal, so sort stability does not matter |
| RoundTrip.ParseBlockOfBody | ghost-ssh.rb:96-110 | the block printed for a well-formed record parses back into that record |
| RoundTrip.HostOfHostLine | ghost-ssh.rb:97 | the `Host h` line `write` prints reads back as host `h` when `h` holds no line feed |
| RoundTrip.ReadRendered | ghost-ssh.rb:22-39 | the text printed for records without line feeds is read as exactly one block per record, the lines printed for it |
| RoundTrip.ParseRender | ghost-ssh.rb:22-39 | reading the text printed for well-formed records gives those records back, in the same order |
| RoundTrip.ParseRenderHosts | ghost-ssh.rb:22-39 | reading the text printed for records without line feeds gives one record per record written, each with the host it was written with, whatever its other values |
| RoundTrip.ParseSerialize | ghost-ssh.rb:80-94 | after `write(rs)`, `list` returns `rs` sorted by host: sorted, and a permutation of `rs` |
| RoundTrip.SerializeIdempotent | ghost-ssh.rb:80-94 | writing what `list` read from a written file reproduces that file exactly |
| SshConfigStore.Comparable | ghost-ssh.rb:83 | `sort!` returns normally exactly when the hosts are all nil or all strings; a nil host compared with a string raises |
| SshConfigStore.DeleteSpec | ghost-ssh.rb:74-78 | `delete`: the file rewritten with the records of every other host, or the `sort!` failure with the file unchanged |
| SshConfigStore.NewRecord | ghost-ssh.rb:44-53 | the record `add` builds: `user` defaults to "root" and `port` to "22" when nil; an empty string is kept |
| SshConfigStore.AddSpec | ghost-ssh.rb:41-64 | `add`: the duplicate error when the host is present and not forced; otherwise delete, read back, append the new record and write, each step able to fail in `sort!` |
| SshConfigStore.FindFirst | ghost-ssh.rb:67 | `find` returns nil exactly when no record has the host; otherwise it returns the first record that does |
| SshConfigStore.RemoveHost | ghost-ssh.rb:76 | no record `delete_if` keeps has the deleted host |
| SshConfigStore.RemoveHostCounts | ghost-ssh.rb:76 | `delete_if` drops every copy of a record of the host and keeps every other record as often as before |
| SshConfigStore.RemoveAbsentHost | ghost-ssh.rb:76 | deleting a host no record has leaves the records unchanged |
| SshConfigStore.RemoveHostUnique | ghost-ssh.rb:76 | deleting a host keeps the remaining hosts unique |
| SshConfigStore.ComparablePermutation | ghost-ssh.rb:83 | whether `sort!` raises on mixed nil and string hosts does not depend on the records' order |
| SshConfigStore.UniqueHostsPermutation | ghost-ssh.rb:83 | unique hosts stay unique when the records are reordered |
| SshConfigStore.DeleteRemovesHost | ghost-ssh.rb:74-78 | `delete` on a readable file succeeds; the file then holds exactly the other records, sorted, each as often as before, none of the host, and is still readable |
| SshConfigStore.DeleteIdempotent | ghost-ssh.rb:74-78 | deleting the same host a second time leaves the file as the first deletion left it |
| SshConfigStore.DeleteAbsentKeepsFile | ghost-ssh.rb:74-78 | deleting a host that a written file does not hold rewrites the file identically |
| SshConfigStore.DeleteFromEmpty | ghost-ssh.rb:74-78 | deleting from an empty file succeeds and leaves it empty |
| SshConfigStore.AddRejectsDuplicate | ghost-ssh.rb:50-62 | `add` without force of a host already present raises the duplicate error and leaves the file unchanged |
| SshConfigStore.AddWrites | ghost-ssh.rb:41-60 | `add` of a new or forced present host on a readable file, whatever the other values, returns the new record and writes the other records, sorted, with the new record appended |
| SshConfigStore.AddStoresRecord | ghost-ssh.rb:41-60 | after `add`, the file is sorted; it holds the other records plus the new one; the new record is the only one with its host and is what `find_by_host` returns; `user` and `port` default to "root" and "22" |
| SshConfigStore.AddTwiceRejected | ghost-ssh.rb:41-64 | once `add` has stored a present host, a second `add` of it without force raises the duplicate error and leaves the file as it is; the first record's values may be empty or hold spaces, only no line feed |
| SshConfigStore.AddKeepsHostsUnique | ghost-ssh.rb:41-64 | `add` keeps the hosts of a file unique for any new record whose fields hold no line feed, nil host included |
| SshConfigStore.AddNilHostKeepsUnique | ghost-ssh.rb:41-64 | `add` with a nil host keeps the hosts unique: on a file with records it fails after rewriting them, on a file without records it writes the one record |
| SshConfigStore.ReadBackUnique | ghost-ssh.rb:22-39 | records with distinct present hosts and no line feeds read back, once written, with distinct hosts |
| SshConfigStore.StoredRecords | ghost-ssh.rb:55-58 | sorting the kept records with the new record appended adds exactly that record, and it is the only record with its host |
| SshConfigStore.NilAfterString | ghost-ssh.rb:83 | a nil host appended after a string host cannot be sorted |
| SshConfigStore.AddWithoutHostFails | ghost-ssh.rb:50-58 | `add` with a nil host on a file holding records raises in `sort!`, after `delete(nil)` has already rewritten the file sorted |
| SshConfigStore.AddToEmpty | ghost-ssh.rb:41-64 | `add` to an empty file writes the new record's block alone, which reads back as that record |
| SshConfigStore.EmptyLeavesNoRecords | ghost-ssh.rb:70-72 | after `empty!`, the file is empty and `list` finds no record |
| SshConfigStore.SshConfigFile.constructor | ghost-ssh.rb:6 | the store starts with the given file contents |
| SshConfigStore.SshConfigFile.List | ghost-ssh.rb:22-39 | the block-grouping loop returns exactly the records `ParseAll` reads from the file |
| SshConfigStore.SshConfigFile.Parse | ghost-ssh.rb:96-110 | the table-filling loop builds the record `ParseBlock` describes: the host from the first line, fields that are tokens |
| SshConfigStore.SshConfigFile.Write | ghost-ssh.rb:80-94 | `write` succeeds exactly when the hosts are comparable, and then leaves the file as the sorted records laid out; otherwise it raises and leaves the file unchanged |
| SshConfigStore.SshConfigFile.PrintAll | ghost-ssh.rb:84-91 | the printing loop produces exactly the lines of the sorted records, block after block |
| SshConfigStore.SshConfigFile.PrintRecord | ghost-ssh.rb:85-90 | one record prints its `Host` and `HostName` lines, then `User`, `Port` and `IdentityFile` when present, then an empty line |
| SshConfigStore.SshConfigFile.FindByHost | ghost-ssh.rb:66-68 | returns the first record read from the file with the host, or nil |
| SshConfigStore.SshConfigFile.Empty | ghost-ssh.rb:70-72 | the file becomes empty and holds no record |
| SshConfigStore.SshConfigFile.Delete | ghost-ssh.rb:74-78 | the new file and the result are those of `DeleteSpec`; when it raises, the file is unchanged |
| SshConfigStore.SshConfigFile.Add | ghost-ssh.rb:41-64 | the result and the new file are those of `AddSpec`: refused duplicate, a failed delete, a failed sort, or the new record written |

## Left out

- The command-line interface (`help_text` and the argument handling, lines 115-241) is not part of this model.
- The path `~/.ssh/config` built from `ENV['HOME']` and all file I/O are not modelled: the file is the field `text`. A missing or unreadable file, partial writes and concurrent writers are not modelled.
- `attr_accessor` and `alias :to_s :host` are not modelled: the record is an immutable value whose fields are read directly.
- `protected :new` is not modelled: records are built only by `NewRecord` and `ParseBlock`.
- `String#downcase` is modelled on ASCII letters only: Unicode case mapping of keys is not modelled.
- Characters are compared by code point. Ruby compares strings byte-wise, which gives the same order on valid UTF-8.
- HostRecords.HostOf: models the regular expression `/Host (.*)/` by its meaning (leftmost "Host ", then everything up to the next line feed), not by a regular-expression engine.
- HostRecords.ParseBlock: `entry.strip!` also changes the caller's block lines in place; the model has no aliasing, and only the returned record is modelled.
- HostOrder.SortByHost: Ruby's `sort!` is not stable, and this sort is. The two agree whenever hosts are unique (`SortedPermutationUnique`). With duplicate hosts, the order of records sharing a host is left unspecified by Ruby and fixed here.
- SshConfigStore.SshConfigFile.Write: `configs.sort!` also reorders the caller's array in place; the model takes the records as a value and leaves the caller's sequence unchanged.
- SshConfigStore.AddRejectsDuplicate: the message text of `SshConfigDuplicateError` is not modelled; the error is the constant `DuplicateError`.
- SshConfigStore.AddTwiceRejected: does not cover a new record whose values hold a line feed; such a value splits into extra lines of the file, and the model states nothing about how those read back.
- SshConfigStore.AddKeepsHostsUnique: does not cover a new record whose values hold a line feed, for the same reason; a line feed in a value can start a block of its own, with a host of its own.
- SshConfigStore.AddStoresRecord: covers well-formed new records only, since it states that the file reads back with the new record itself; an empty or spaced value does not read back as written.
- The round-trip lemmas cover well-formed records only: a present host without line feeds, and present values that are non-empty and free of white space. Other records do not read back as written (an empty user reads back as nil, for example), and the model states no round trip for them.
