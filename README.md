# Flash-memory word store, modelled in Dafny

This project models the core of a desktop flashcard program for English–Chinese
word pairs. Words are kept in named **word tables**, and tables are kept in
named **groups**. The store (`FlashMemory`) maps each group name to that
group's ordered sequence of tables. Its operations work in place:

- create a group if it is absent;
- create a table under a collision-free name (`name`, `name2`, `name3`, …);
- rename a group or a table, checking its conditions in a fixed order;
- delete a group (all of its tables go with it);
- delete the first table that has a given name;
- read the group names or one group's tables.

Every operation except creation can be refused. A refusal carries the
program's own message (`分组名已存在`, `原分组不存在`, `分组不存在`,
`单词表名已存在`, `单词表不存在`; see `Store.Message`) and leaves the store
unchanged.

Around the store sits the application state (`FlashMemoryApp`). It records the
selected group and table, the two rename boxes and the last message. Its
methods are the user actions of the frame handler:

- the "+" button picks the first free name among `新分组`, `新分组2`, …;
- confirming a rename box trims the input, refuses a blank name, and selects
  the new name on success;
- the context menus create and delete tables and groups, and clear the
  selection when its target is deleted;
- clicking a group label selects it or collapses it.

Files:
- `naming.dfy`: the decimal suffix and the name-search loop. Both table
  creation and the "+" button use that loop.
- `words.dfy`: `Word`, `WordTable` and the operations on one group's table
  sequence, plus the lemmas that each operation keeps table names unique.
- `store.dfy`: the `FlashMemory` class, and a client scenario that creates
  `T`, `T2` and `T3`.
- `text.dfy`: `str::trim` over Unicode White_Space.
- `app.dfy`: the `FlashMemoryApp` class and a client scenario.

Table names unique within a group is not something every store satisfies,
because a loaded file may break it. So it is stated as a predicate
(`UniqueNames`, `AllUnique`), and every mutating method proves that it
preserves it. The UI keeps one more invariant: the selected group exists
(`SelectionValid`).

Notes on the program's behaviour:
- `create_word_table` returns nothing; it does not return the chosen name.
- `rename_word_table` checks the group's existence before it looks for a
  sibling with the new name.
- Both table operations act on the *first* table with the given name.
- After a table is created, the UI selects the literal name `新单词表`, even
  when the stored table got a suffix.
- Deleting a table clears the table selection by name alone. It does not
  compare the group.
- The table-edit screen's save button only shows a "to be implemented"
  message; nothing fills a table with words.

## Model

| member | source | states |
|---|---|---|
| `Naming.Decimal` | src/main.rs:42 | the suffix text is the counter's decimal rendering: non-empty, all digits, read back as a decimal number it is the counter, no leading zero, a single digit exactly below 10 |
| `Naming.DecimalInjective` | src/main.rs:42 | different counters render as different suffixes |
| `Naming.CandidateShape` | src/main.rs:38-42 | the first attempt is the requested name itself; attempt k (k ≥ 2) is that name followed by the decimal rendering of k; the same attempts are made for groups at src/main.rs:234-238 |
| `Naming.CandidateInjective` | src/main.rs:38-43 | the names tried (`base`, then `base` followed by 2, 3, …) are pairwise distinct, so the loop never retries a name |
| `Naming.FirstFreeUnique` | src/main.rs:38-43 | "the first attempt not in use" determines the attempt: the chosen suffix is the smallest free one |
| `Naming.FirstFreeName` | src/main.rs:38-43 | the loop ends with a name not in use; every earlier attempt was in use; the counter is at most the number of names in use plus one; the same loop serves the new-group button at src/main.rs:233-239 |
| `Words.FindTable` | src/main.rs:88 | the position of the first table with the name, or none exactly when no table has it |
| `Words.Renamed` | src/main.rs:67-68 | only the table at the position gets the new name; its words and every other table are unchanged |
| `Words.RemoveAt` | src/main.rs:89 | one element fewer; the elements before the position are kept, the ones after shift down by one in their order |
| `Words.AppendKeepsUnique` | src/main.rs:44-47 | appending an empty table under an unused name keeps table names unique and adds exactly that name |
| `Words.RenameKeepsUnique` | src/main.rs:64-68 | renaming one table to a name no sibling uses keeps table names unique |
| `Words.RemoveKeepsUnique` | src/main.rs:88-89 | removing a table keeps the remaining names unique |
| `Store.Message` | src/main.rs:52-95 | each refusal's text (the error literals at lines 52, 57, 65, 71, 74, 82, 92 and 95): group name taken `分组名已存在`, old group missing `原分组不存在`, group missing `分组不存在`, table name taken `单词表名已存在`, table missing `单词表不存在` |
| `Store.MessagesDistinct` | src/main.rs:52-95 | different refusals show different texts, so the message identifies the failed check |
| `Store.FlashMemory.constructor` | src/main.rs:24-26 | the store starts with no groups |
| `Store.FlashMemory.CreateGroupIfAbsent` | src/main.rs:32-34 | afterwards the group exists; an existing group keeps its tables; a new one is empty; no other group changes |
| `Store.FlashMemory.CreateWordTable` | src/main.rs:36-48 | never fails and creates the group if absent; the group's tables become the old ones plus one empty table at the end, named by the first free attempt; other groups are unchanged; uniqueness is preserved |
| `Store.FlashMemory.RenameGroup` | src/main.rs:50-59 | same name: Ok, no change; new name taken: refused before the old group is looked up; old group absent: refused; otherwise the new key holds exactly the old group's tables, the old key is gone, other keys are untouched; the status is exactly `GroupRenameResult` (conditions checked in the source's order) and the new map exactly `GroupsAfterGroupRename`; every refusal leaves the store unchanged |
| `Store.FlashMemory.RenameWordTable` | src/main.rs:61-76 | the checks in order (same name, group absent, sibling has the new name, no table with the old name); on success only the first table with the old name is renamed; the status is exactly `TableRenameResult` and the new map exactly `GroupsAfterTableRename`; every refusal leaves the store unchanged; uniqueness is preserved |
| `Store.FlashMemory.DeleteGroup` | src/main.rs:78-84 | Ok exactly when the group existed; the result is the old map without that key, so a later lookup of the group finds nothing |
| `Store.FlashMemory.DeleteWordTable` | src/main.rs:86-97 | group absent or no such table: refused with the store unchanged; otherwise the first table with the name is removed, the others keep their order, and no other group changes; status and new map are exactly `TableDeleteResult` and `GroupsAfterTableDelete` |
| `Store.FlashMemory.GetGroups` | src/main.rs:99 | exactly the group names of the store |
| `Store.FlashMemory.GetWordTablesInGroup` | src/main.rs:101-103 | the group's tables when it exists, none otherwise |
| `StoreScenario.SuffixAttempts` | src/main.rs:38-43 | with `T` in use the first free attempt is `T2`; with `T` and `T2` in use it is `T3` |
| `Text.Trim` | src/main.rs:276 | what is cut from either end is whitespace; the result is empty exactly when the input is all whitespace; otherwise it starts and ends with non-whitespace |
| `Text.TrimIdempotent` | src/main.rs:276 | trimming an already trimmed name changes nothing |
| `App.FlashMemoryApp.constructor` | src/main.rs:162-190 | nothing is selected, no rename box is open, and there is no message |
| `App.FlashMemoryApp.NewGroup` | src/main.rs:232-246 | the new name was not a group before and is the first free one among `新分组`, `新分组2`, …; the store gains exactly that key with no tables; it is selected and its rename box is open |
| `App.FlashMemoryApp.CommitGroupRename` | src/main.rs:275-294 | a blank input is refused with `分组名不能为空` and the store and selection unchanged; otherwise the store becomes exactly `GroupsAfterGroupRename` of the old map, the selected group and the trimmed name; success selects the new name and shows `分组已重命名`, a refusal keeps the selection and shows `Message` of the store's error; the box closes, both input texts and the table state are unchanged; the selected group still exists |
| `App.FlashMemoryApp.CommitTableRename` | src/main.rs:350-367 | a blank input is refused with `单词表名不能为空` and the store unchanged; otherwise the store becomes exactly `GroupsAfterTableRename` for the selected group and table and the trimmed name; success selects the new table name and shows `单词表已重命名`, a refusal keeps the selection and shows `Message` of the store's error; only the table box closes, both input texts and the group state are unchanged |
| `App.FlashMemoryApp.NewWordTable` | src/main.rs:410-420 | the table is created as by `CreateWordTable`; the group is selected; the table selection and rename box hold the literal `新单词表`; the group rename box is unchanged |
| `App.FlashMemoryApp.DeleteGroup` | src/main.rs:423-437 | the group is removed; deleting the selected group clears both selections; otherwise the selection is unchanged and still exists; the rename boxes and their texts are unchanged |
| `App.FlashMemoryApp.DeleteWordTable` | src/main.rs:461-475 | the store becomes exactly `GroupsAfterTableDelete`; the message is `单词表已删除` or `Message` of the store's error; after a successful delete a selected table with that name is deselected, whatever its group; group keys, the group selection and the rename boxes are unchanged |
| `App.FlashMemoryApp.ClickGroup` | src/main.rs:308-318 | clicking the selected group collapses it; clicking another selects it; either way the table selection is cleared; the store, the message and the rename boxes are unchanged |
| `AppScenario.SecondAttempts` | src/main.rs:233-239 | with `新分组` taken the next group is `新分组2`; with `新单词表` taken the next table is `新单词表2` |

## Left out

- Drawing, layout, pointer hit-testing, context-menu placement and the
  resizable sidebar (src/main.rs:201-575). Which action runs in a frame is the
  caller's decision: each action is a method of `FlashMemoryApp`.
- `save_to_file`, `load_from_file` and `auto_save`. These are JSON
  serialisation and file I/O. The application state is built around a store
  that the caller supplies, either loaded or empty, and a failed save's message
  is not modelled.
- The message timer (`message_timer`, `f32` frame deltas). Only the message
  text is kept.
- `configure_chinese_fonts` and `main`: font files and process start-up.
- `add_word` and `get_words_in_group`: stubs that do nothing or return `None`.
- The table-edit screen (src/main.rs:453-458, 521-555). Its save button is
  unimplemented and changes no state in the store.
- Opening a rename box by double-click (src/main.rs:304-307, 378-382) and
  selecting a table by click (src/main.rs:384-387). These only assign fields.
- The order in which `get_groups` lists groups is unspecified (a hash map), and
  the sidebar sorts the names. `GetGroups` returns a set.
- `Naming.FirstFreeName`: the counter is an unbounded integer, not the
  source's 32-bit `i32`. Instead the model proves the counter never exceeds the
  number of names in use plus one, so overflow would need more than 2^31
  sibling names.
- `App.FlashMemoryApp.CommitGroupRename`, `App.FlashMemoryApp.CommitTableRename`:
  the calling conditions (Enter pressed or focus lost while the box is open)
  are not modelled. Escape, which only closes the box, is not modelled either.
