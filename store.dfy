/**
 * The in-memory word store: a map from group name to that group's ordered
 * tables, updated in place by the create, rename and delete operations.
 * Every failing operation reports which check failed and leaves the map as
 * it was.
 */
module Store {
  import opened Words
  import opened Naming

  /** Why an operation was refused. */
  datatype StoreError =
    | GroupNameTaken    // rename_group: the new name is already a group
    | OldGroupMissing   // rename_group: the group to rename does not exist
    | GroupMissing      // rename_word_table, delete_*: the group does not exist
    | TableNameTaken    // rename_word_table: a sibling already has the new name
    | TableMissing      // rename_word_table, delete_word_table: no table of that name

  datatype Status = Ok | Err(error: StoreError)

  /** The text each refusal shows to the user. */
  function Message(e: StoreError): (m: string)
    ensures e == GroupNameTaken ==> m == "分组名已存在"
    ensures e == OldGroupMissing ==> m == "原分组不存在"
    ensures e == GroupMissing ==> m == "分组不存在"
    ensures e == TableNameTaken ==> m == "单词表名已存在"
    ensures e == TableMissing ==> m == "单词表不存在"
  {
    match e
    case GroupNameTaken => "分组名已存在"
    case OldGroupMissing => "原分组不存在"
    case GroupMissing => "分组不存在"
    case TableNameTaken => "单词表名已存在"
    case TableMissing => "单词表不存在"
  }

  /** Different refusals show different texts, so the user can tell which check failed. */
  lemma MessagesDistinct(e1: StoreError, e2: StoreError)
    requires e1 != e2
    ensures Message(e1) != Message(e2)
  {
  }

  type Groups = map<string, seq<WordTable>>

  /** The tables of `group`, or none when the group does not exist. */
  function TablesOf(groups: Groups, group: string): seq<WordTable>
  {
    if group in groups then groups[group] else []
  }

  /** `a` and `b` agree on every key other than `except`. */
  ghost predicate SameOutside(a: Groups, b: Groups, except: string)
  {
    forall g :: g != except && (g in a || g in b) ==> g in a && g in b && a[g] == b[g]
  }

  /** Table names are unique within every group. */
  ghost predicate AllUnique(groups: Groups)
  {
    forall g :: g in groups ==> UniqueNames(groups[g])
  }

  /** A map that agrees with `a` outside `key` and holds `v` at `key` is `a[key := v]`. */
  lemma SameOutsideUpdate(a: Groups, b: Groups, key: string)
    requires SameOutside(a, b, key) && key in b
    ensures b == a[key := b[key]]
  {
  }

  /** The status of `rename_group(from, to)`, its checks taken in the source's order. */
  ghost function GroupRenameResult(groups: Groups, from: string, to: string): Status
  {
    if from == to then Ok
    else if to in groups then Err(GroupNameTaken)
    else if from !in groups then Err(OldGroupMissing)
    else Ok
  }

  /** The map after `rename_group(from, to)`. */
  ghost function GroupsAfterGroupRename(groups: Groups, from: string, to: string): Groups
  {
    if from != to && GroupRenameResult(groups, from, to) == Ok then (groups - {from})[to := groups[from]]
    else groups
  }

  /** The status of `rename_word_table(group, oldName, newName)`, checks in the source's order. */
  ghost function TableRenameResult(groups: Groups, group: string, oldName: string, newName: string): Status
  {
    if oldName == newName then Ok
    else if group !in groups then Err(GroupMissing)
    else if newName in Names(groups[group]) then Err(TableNameTaken)
    else if oldName !in Names(groups[group]) then Err(TableMissing)
    else Ok
  }

  /** The map after `rename_word_table(group, oldName, newName)`: the first table called `oldName` is renamed. */
  ghost function GroupsAfterTableRename(groups: Groups, group: string, oldName: string, newName: string): Groups
  {
    if oldName != newName && TableRenameResult(groups, group, oldName, newName) == Ok then
      var tables := groups[group];
      groups[group := Renamed(tables, FindTable(tables, oldName).value, newName)]
    else groups
  }

  /** The status of `delete_word_table(group, tableName)`. */
  ghost function TableDeleteResult(groups: Groups, group: string, tableName: string): Status
  {
    if group !in groups then Err(GroupMissing)
    else if tableName !in Names(groups[group]) then Err(TableMissing)
    else Ok
  }

  /** The map after `delete_word_table(group, tableName)`: the first table called `tableName` is gone. */
  ghost function GroupsAfterTableDelete(groups: Groups, group: string, tableName: string): Groups
  {
    if TableDeleteResult(groups, group, tableName) == Ok then
      var tables := groups[group];
      groups[group := RemoveAt(tables, FindTable(tables, tableName).value)]
    else groups
  }

  class FlashMemory {
    var groups: Groups

    /** An empty store (also what start-up falls back to when loading fails). */
    constructor ()
      ensures groups == map[]
    {
      groups := map[];
    }

    method CreateGroupIfAbsent(group: string)
      modifies this
      ensures group in groups
      ensures groups[group] == TablesOf(old(groups), group)
      ensures SameOutside(old(groups), groups, group)
      ensures AllUnique(old(groups)) ==> AllUnique(groups)
    {
      if group !in groups {
        groups := groups[group := []];
      }
    }

    /**
     * Creates the group when absent and appends one empty table whose name
     * is the first of `tableName`, `tableName2`, `tableName3`, ... that no
     * table of the group uses. Never fails. The ghost `k` is the attempt
     * that succeeded.
     */
    method CreateWordTable(group: string, tableName: string) returns (ghost k: nat)
      modifies this
      ensures group in groups
      ensures FirstFree(tableName, Names(TablesOf(old(groups), group)), k)
      ensures groups[group] == TablesOf(old(groups), group) + [WordTable(Candidate(tableName, k), [])]
      ensures SameOutside(old(groups), groups, group)
      ensures AllUnique(old(groups)) ==> AllUnique(groups)
    {
      CreateGroupIfAbsent(group);
      var tables := groups[group];
      var name, idx := FirstFreeName(tableName, Names(tables));
      k := idx;
      if UniqueNames(tables) {
        AppendKeepsUnique(tables, name);
      }
      groups := groups[group := tables + [WordTable(name, [])]];
    }

    /**
     * Moves the tables of group `from` to the key `to`. Renaming a group to
     * its own name succeeds without change; otherwise a taken `to` is
     * refused before the existence of `from` is checked.
     */
    method RenameGroup(from: string, to: string) returns (r: Status)
      modifies this
      ensures from == to ==> r == Ok
      ensures from != to && to in old(groups) ==> r == Err(GroupNameTaken)
      ensures from != to && to !in old(groups) && from !in old(groups) ==> r == Err(OldGroupMissing)
      ensures r == GroupRenameResult(old(groups), from, to)
      ensures groups == GroupsAfterGroupRename(old(groups), from, to)
      ensures r.Err? || from == to ==> groups == old(groups)
      ensures from != to && to !in old(groups) && from in old(groups) ==>
        && r == Ok
        && groups.Keys == old(groups).Keys - {from} + {to}
        && groups[to] == old(groups)[from]
        && forall g :: g in groups && g != to ==> groups[g] == old(groups)[g]
      ensures AllUnique(old(groups)) ==> AllUnique(groups)
    {
      if from == to {
        return Ok;
      }
      if to in groups {
        return Err(GroupNameTaken);
      }
      if from in groups {
        var tables := groups[from];
        groups := groups - {from};
        groups := groups[to := tables];
        r := Ok;
      } else {
        r := Err(OldGroupMissing);
      }
    }

    /**
     * Renames the first table called `oldName` in `group`. The checks run in
     * this order: same name (success, no change), missing group, a sibling
     * already called `newName`, no table called `oldName`.
     */
    method RenameWordTable(group: string, oldName: string, newName: string) returns (r: Status)
      modifies this
      ensures oldName == newName ==> r == Ok
      ensures oldName != newName && group !in old(groups) ==> r == Err(GroupMissing)
      ensures oldName != newName && group in old(groups) && newName in Names(old(groups)[group]) ==>
        r == Err(TableNameTaken)
      ensures (oldName != newName && group in old(groups) && newName !in Names(old(groups)[group])
               && oldName !in Names(old(groups)[group])) ==> r == Err(TableMissing)
      ensures r == TableRenameResult(old(groups), group, oldName, newName)
      ensures groups == GroupsAfterTableRename(old(groups), group, oldName, newName)
      ensures r.Err? || oldName == newName ==> groups == old(groups)
      ensures (oldName != newName && group in old(groups) && newName !in Names(old(groups)[group])
               && oldName in Names(old(groups)[group])) ==>
        && r == Ok
        && var tables := old(groups)[group];
           groups == old(groups)[group := Renamed(tables, FindTable(tables, oldName).value, newName)]
      ensures AllUnique(old(groups)) ==> AllUnique(groups)
    {
      if oldName == newName {
        return Ok;
      }
      if group !in groups {
        return Err(GroupMissing);
      }
      var tables := groups[group];
      if newName in Names(tables) {
        return Err(TableNameTaken);
      }
      match FindTable(tables, oldName)
      case None =>
        r := Err(TableMissing);
      case Some(i) =>
        if UniqueNames(tables) {
          RenameKeepsUnique(tables, i, newName);
        }
        groups := groups[group := Renamed(tables, i, newName)];
        r := Ok;
    }

    /** Removes a group together with all of its tables. */
    method DeleteGroup(group: string) returns (r: Status)
      modifies this
      ensures r == (if group in old(groups) then Ok else Err(GroupMissing))
      ensures groups == old(groups) - {group}
      ensures group !in groups && GetWordTablesInGroup(group) == None
      ensures AllUnique(old(groups)) ==> AllUnique(groups)
    {
      if group in groups {
        groups := groups - {group};
        r := Ok;
      } else {
        r := Err(GroupMissing);
      }
    }

    /** Removes the first table called `tableName` from `group`. */
    method DeleteWordTable(group: string, tableName: string) returns (r: Status)
      modifies this
      ensures group !in old(groups) ==> r == Err(GroupMissing)
      ensures group in old(groups) && tableName !in Names(old(groups)[group]) ==> r == Err(TableMissing)
      ensures r == TableDeleteResult(old(groups), group, tableName)
      ensures groups == GroupsAfterTableDelete(old(groups), group, tableName)
      ensures r.Err? ==> groups == old(groups)
      ensures groups.Keys == old(groups).Keys
      ensures group in old(groups) && tableName in Names(old(groups)[group]) ==>
        && r == Ok
        && var tables := old(groups)[group];
           groups == old(groups)[group := RemoveAt(tables, FindTable(tables, tableName).value)]
      ensures AllUnique(old(groups)) ==> AllUnique(groups)
    {
      if group !in groups {
        return Err(GroupMissing);
      }
      var tables := groups[group];
      match FindTable(tables, tableName)
      case None =>
        r := Err(TableMissing);
      case Some(pos) =>
        if UniqueNames(tables) {
          RemoveKeepsUnique(tables, pos);
        }
        groups := groups[group := RemoveAt(tables, pos)];
        r := Ok;
    }

    /** The group names (the order of the underlying hash map is not modelled). */
    function GetGroups(): (r: set<string>)
      reads this
      ensures forall g :: g in r <==> g in groups
    {
      groups.Keys
    }

    /** The tables of `group`, or `None` when there is no such group. */
    function GetWordTablesInGroup(group: string): (r: Option<seq<WordTable>>)
      reads this
      ensures r.Some? <==> group in groups
      ensures r.Some? ==> r.value == groups[group]
    {
      if group in groups then Some(groups[group]) else None
    }
  }
}

/**
 * A client of the store: three tables requested under the same name in one
 * group are called T, T2 and T3; renaming onto a sibling's name is refused,
 * and deleting the group leaves nothing to find.
 */
module StoreScenario {
  import opened Words
  import opened Naming
  import opened Store

  /** The attempts for "T" against the names that are in use. */
  lemma SuffixAttempts()
    ensures FirstFree("T", {}, 1) && Candidate("T", 1) == "T"
    ensures FirstFree("T", {"T"}, 2) && Candidate("T", 2) == "T2"
    ensures FirstFree("T", {"T", "T2"}, 3) && Candidate("T", 3) == "T3"
  {
    assert Decimal(2) == "2";
    assert Decimal(3) == "3";
    assert "T3"[1] != "T2"[1];
  }

  lemma NamesOf(a: string, b: string)
    ensures Names([WordTable(a, [])]) == {a}
    ensures Names([WordTable(a, []), WordTable(b, [])]) == {a, b}
  {
  }

  method SuffixScenario()
  {
    var m := new FlashMemory();
    SuffixAttempts();
    NamesOf("T", "T2");
    ghost var k1 := m.CreateWordTable("g", "T");
    FirstFreeUnique("T", {}, k1, 1);
    assert m.groups["g"] == [WordTable("T", [])];

    ghost var k2 := m.CreateWordTable("g", "T");
    FirstFreeUnique("T", {"T"}, k2, 2);
    assert m.groups["g"] == [WordTable("T", []), WordTable("T2", [])];

    ghost var k3 := m.CreateWordTable("g", "T");
    FirstFreeUnique("T", {"T", "T2"}, k3, 3);
    assert m.groups["g"][2].name == "T3";
    assert m.groups["g"][1] == WordTable("T2", []);
    RefusalScenario(m);
  }

  /** Renaming onto a sibling's name is refused; deleting the group removes every table. */
  method RefusalScenario(m: FlashMemory)
    requires "g" in m.groups && "T2" in Names(m.groups["g"])
    modifies m
  {
    ghost var before := m.groups;
    var r := m.RenameWordTable("g", "T", "T2");
    assert r == Err(TableNameTaken) && m.groups == before;

    r := m.DeleteGroup("g");
    assert r == Ok && m.GetWordTablesInGroup("g") == None;
    r := m.DeleteWordTable("g", "T3");
    assert r == Err(GroupMissing);
  }
}
